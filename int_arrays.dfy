/** Ascending order, frames and multisets on integer arrays, shared by the
    integer sorts of SET3/a2/a2.cpp and SET3/a3/a3.cpp. Ranges are inclusive
    [low, high] as in the source; an empty range has high == low - 1. */
module IntArrays {

  predicate Ascending(s: seq<int>) {
    forall i, j :: 0 <= i < j < |s| ==> s[i] <= s[j]
  }

  /** s[low..high] is ascending. */
  predicate SortedBetween(s: seq<int>, low: int, high: int)
    requires 0 <= low && high < |s|
  {
    forall i, j :: low <= i < j <= high ==> s[i] <= s[j]
  }

  /** t agrees with s everywhere outside [low, high]. */
  predicate SameOutside(s: seq<int>, t: seq<int>, low: int, high: int) {
    |t| == |s| && forall k :: 0 <= k < |s| && !(low <= k <= high) ==> t[k] == s[k]
  }

  /** Appending a value no smaller than the last one keeps a run ascending. */
  lemma AscendingAppend(s: seq<int>, x: int)
    requires Ascending(s) && (|s| > 0 ==> s[|s| - 1] <= x)
    ensures Ascending(s + [x])
  {
  }

  /** An ascending slice is a sorted range, and back. */
  lemma AscendingSlice(s: seq<int>, low: int, high: int)
    requires 0 <= low <= high + 1 <= |s|
    ensures Ascending(s[low..high + 1]) <==> SortedBetween(s, low, high)
  {
    if Ascending(s[low..high + 1]) {
      forall i, j | low <= i < j <= high
        ensures s[i] <= s[j]
      {
        assert s[i] == s[low..high + 1][i - low] && s[j] == s[low..high + 1][j - low];
      }
    }
  }

  /** A sequence is its part below low, its range [low, high] and the rest. */
  lemma ThreeParts(s: seq<int>, low: int, high: int)
    requires 0 <= low <= high + 1 <= |s|
    ensures multiset(s) == multiset(s[..low]) + multiset(s[low..high + 1]) + multiset(s[high + 1..])
  {
    assert s == s[..low] + s[low..high + 1] + s[high + 1..];
  }

  /** When only [low, high] may differ, the whole sequences are permutations
      of each other exactly when the ranges are. */
  lemma RangeMultiset(s: seq<int>, t: seq<int>, low: int, high: int)
    requires 0 <= low <= high + 1 <= |s|
    requires SameOutside(s, t, low, high)
    ensures multiset(s) == multiset(t) <==> multiset(s[low..high + 1]) == multiset(t[low..high + 1])
  {
    assert s[..low] == t[..low];
    assert s[high + 1..] == t[high + 1..];
    ThreeParts(s, low, high);
    ThreeParts(t, low, high);
    var outside := multiset(s[..low]) + multiset(s[high + 1..]);
    assert multiset(s) - outside == multiset(s[low..high + 1]);
    assert multiset(t) - outside == multiset(t[low..high + 1]);
  }

  /** Every element of a permuted range comes from the range it replaced. */
  lemma PermutedRangeFrom(s: seq<int>, t: seq<int>, low: int, high: int, k: int)
    requires 0 <= low <= k <= high < |s|
    requires SameOutside(s, t, low, high) && multiset(s) == multiset(t)
    ensures exists m :: low <= m <= high && t[k] == s[m]
  {
    RangeMultiset(s, t, low, high);
    assert t[k] == t[low..high + 1][k - low];
    assert t[k] in multiset(s[low..high + 1]);
    var m :| 0 <= m < high + 1 - low && s[low..high + 1][m] == t[k];
    assert s[low + m] == t[k];
  }

  /** Positions [low, high] of t hold values at most x (at least x) when t
      permutes only that range of s and s's range does. */
  lemma PermutedRangeBounds(s: seq<int>, t: seq<int>, low: int, high: int, x: int)
    requires 0 <= low && high < |s|
    requires SameOutside(s, t, low, high) && multiset(s) == multiset(t)
    ensures (forall k :: low <= k <= high ==> s[k] <= x) ==> (forall k :: low <= k <= high ==> t[k] <= x)
    ensures (forall k :: low <= k <= high ==> s[k] > x) ==> (forall k :: low <= k <= high ==> t[k] > x)
  {
    forall k | low <= k <= high
      ensures exists m :: low <= m <= high && t[k] == s[m]
    {
      PermutedRangeFrom(s, t, low, high, k);
    }
  }

  /** std::swap(array[i], array[j]). */
  method SwapAt(a: array<int>, i: int, j: int)
    requires 0 <= i < a.Length && 0 <= j < a.Length
    modifies a
    ensures a[i] == old(a[j]) && a[j] == old(a[i])
    ensures forall k :: 0 <= k < a.Length && k != i && k != j ==> a[k] == old(a[k])
    ensures multiset(a[..]) == multiset(old(a[..]))
  {
    ghost var s := a[..];
    a[i], a[j] := a[j], a[i];
    assert a[..] == s[i := s[j]][j := s[i]];
  }
}
