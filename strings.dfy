/** Strings as the sorting code sees them: sequences of character codes,
    ordered as std::string's operator< orders them (byte-wise, a proper
    prefix first). Shared by every string sort of the model. */
module Strings {

  type Str = seq<int>

  /** Character codes 1..127: the alphabet the string sorts are meant for. */
  predicate ValidStr(s: Str) {
    forall i :: 0 <= i < |s| ==> 1 <= s[i] <= 127
  }

  predicate AllValid(ss: seq<Str>) {
    forall i :: 0 <= i < |ss| ==> ValidStr(ss[i])
  }

  /** Character codes 0..127: what indexing a 128-entry bucket array needs. */
  predicate AllInBucketRange(ss: seq<Str>) {
    forall i, k :: 0 <= i < |ss| && 0 <= k < |ss[i]| ==> 0 <= ss[i][k] < 128
  }

  /** The character at position i, or 0 once the string has ended
      (std::string reads '\0' at position size()). */
  function Key(s: Str, i: nat): (c: int)
    ensures i < |s| ==> c == s[i]
    ensures i >= |s| ==> c == 0
  {
    if i < |s| then s[i] else 0
  }

  /** Lexicographic order; a proper prefix comes first. */
  predicate Less(a: Str, b: Str) {
    if |a| == 0 then |b| > 0
    else if |b| == 0 then false
    else a[0] < b[0] || (a[0] == b[0] && Less(a[1..], b[1..]))
  }

  /** std::string's <= is !(b < a). */
  predicate LessEq(a: Str, b: Str) {
    !Less(b, a)
  }

  predicate Sorted(s: seq<Str>) {
    forall i, j :: 0 <= i < j < |s| ==> LessEq(s[i], s[j])
  }

  predicate StrictlySorted(s: seq<Str>) {
    forall i, j :: 0 <= i < j < |s| ==> Less(s[i], s[j])
  }

  /** Swap two positions of a sequence. */
  function Swap<T>(s: seq<T>, i: int, j: int): (r: seq<T>)
    requires 0 <= i < |s| && 0 <= j < |s|
    ensures |r| == |s| && r[i] == s[j] && r[j] == s[i]
  {
    s[i := s[j]][j := s[i]]
  }

  function Min(x: int, y: int): int {
    if x <= y then x else y
  }

  /** Splitting a sequence and putting it back together keeps its multiset. */
  lemma MultisetSplit<T>(s: seq<T>, h: int)
    requires 0 <= h <= |s|
    ensures multiset(s[..h]) + multiset(s[h..]) == multiset(s)
  {
    assert s == s[..h] + s[h..];
  }

  lemma SwapPermutes<T>(s: seq<T>, i: int, j: int)
    requires 0 <= i < |s| && 0 <= j < |s|
    ensures multiset(Swap(s, i, j)) == multiset(s)
  {
  }

  // ---------------------------------------------------------------------------
  // Less is a strict total order.

  lemma {:induction false} LessIrreflexive(a: Str)
    ensures !Less(a, a)
  {
    if |a| > 0 {
      LessIrreflexive(a[1..]);
    }
  }

  lemma {:induction false} LessAsymmetric(a: Str, b: Str)
    requires Less(a, b)
    ensures !Less(b, a)
  {
    if |a| > 0 && |b| > 0 && a[0] == b[0] {
      LessAsymmetric(a[1..], b[1..]);
    }
  }

  lemma {:induction false} LessTransitive(a: Str, b: Str, c: Str)
    requires Less(a, b) && Less(b, c)
    ensures Less(a, c)
  {
    if |a| > 0 && a[0] == b[0] && b[0] == c[0] {
      LessTransitive(a[1..], b[1..], c[1..]);
    }
  }

  lemma {:induction false} LessTotal(a: Str, b: Str)
    ensures a == b || Less(a, b) || Less(b, a)
  {
    if |a| > 0 && |b| > 0 && a[0] == b[0] {
      LessTotal(a[1..], b[1..]);
      if a[1..] == b[1..] {
        assert a == [a[0]] + a[1..] && b == [b[0]] + b[1..];
      }
    }
  }

  /** LessEq is the reflexive closure of Less. */
  lemma LessEqIsLessOrEqual(a: Str, b: Str)
    ensures LessEq(a, b) <==> a == b || Less(a, b)
  {
    LessTotal(a, b);
    if a == b {
      LessIrreflexive(a);
    } else if Less(a, b) {
      LessAsymmetric(a, b);
    }
  }

  lemma LessEqTransitive(a: Str, b: Str, c: Str)
    requires LessEq(a, b) && LessEq(b, c)
    ensures LessEq(a, c)
  {
    LessEqIsLessOrEqual(a, b);
    LessEqIsLessOrEqual(b, c);
    LessEqIsLessOrEqual(a, c);
    if a != b && b != c {
      LessTransitive(a, b, c);
    }
  }

  lemma LessEqLessTransitive(a: Str, b: Str, c: Str)
    requires LessEq(a, b) && Less(b, c)
    ensures Less(a, c)
  {
    LessEqIsLessOrEqual(a, b);
    if a != b {
      LessTransitive(a, b, c);
    }
  }

  lemma LessImpliesLessEq(a: Str, b: Str)
    requires Less(a, b)
    ensures LessEq(a, b)
  {
    LessAsymmetric(a, b);
  }

  // ---------------------------------------------------------------------------
  // The order read character by character, as the radix sorts read it.

  /** Two strings agree on their keys at every position below n. */
  predicate SameKeysBelow(a: Str, b: Str, n: nat) {
    forall k: nat :: k < n ==> Key(a, k) == Key(b, k)
  }

  /** With characters 1..127, the first differing key decides the order. */
  lemma {:induction false} KeyDecides(a: Str, b: Str, n: nat)
    requires ValidStr(a) && ValidStr(b)
    requires SameKeysBelow(a, b, n)
    requires Key(a, n) < Key(b, n)
    ensures Less(a, b)
  {
    if n > 0 {
      assert Key(a, 0) == Key(b, 0);
      assert |a| > 0 && |b| > 0;
      forall k: nat | k < n - 1
        ensures Key(a[1..], k) == Key(b[1..], k)
      {
        assert Key(a, k + 1) == Key(b, k + 1);
      }
      assert Key(a, n) == Key(a[1..], n - 1) && Key(b, n) == Key(b[1..], n - 1);
      KeyDecides(a[1..], b[1..], n - 1);
    }
  }

  /** With characters 1..127, strings no longer than n that agree on every key
      below n are equal: the first key 0 marks where each one ends. */
  lemma {:induction false} SameKeysEqual(a: Str, b: Str, n: nat)
    requires ValidStr(a) && ValidStr(b)
    requires |a| <= n && |b| <= n
    requires SameKeysBelow(a, b, n)
    ensures a == b
  {
    if n > 0 {
      assert Key(a, 0) == Key(b, 0);
      if |a| > 0 {
        forall k: nat | k < n - 1
          ensures Key(a[1..], k) == Key(b[1..], k)
        {
          assert Key(a, k + 1) == Key(b, k + 1);
        }
        SameKeysEqual(a[1..], b[1..], n - 1);
        assert a == [a[0]] + a[1..] && b == [b[0]] + b[1..];
      }
    }
  }

  // ---------------------------------------------------------------------------
  // Sortedness of concatenations.

  lemma SortedConcat(a: seq<Str>, b: seq<Str>)
    requires Sorted(a) && Sorted(b)
    requires forall i, j :: 0 <= i < |a| && 0 <= j < |b| ==> LessEq(a[i], b[j])
    ensures Sorted(a + b)
  {
  }

  lemma SortedCons(x: Str, t: seq<Str>)
    requires Sorted(t)
    requires forall j :: 0 <= j < |t| ==> LessEq(x, t[j])
    ensures Sorted([x] + t)
  {
  }

  lemma StrictlySortedCons(x: Str, t: seq<Str>)
    requires StrictlySorted(t)
    requires forall j :: 0 <= j < |t| ==> Less(x, t[j])
    ensures StrictlySorted([x] + t)
  {
  }

  /** A strictly sorted sequence holds no string twice. */
  lemma {:induction false} StrictlySortedDistinct(s: seq<Str>)
    requires StrictlySorted(s)
    ensures |set x | x in s| == |s|
  {
    if s != [] {
      StrictlySortedDistinct(s[1..]);
      var t := set x | x in s[1..];
      assert (set x | x in s) == {s[0]} + t;
      if s[0] in t {
        var j :| 0 <= j < |s[1..]| && s[1..][j] == s[0];
        assert Less(s[0], s[j + 1]);
        LessIrreflexive(s[0]);
      }
    }
  }

  /** Appending an element no smaller than the last one keeps a run sorted. */
  lemma SortedAppend(t: seq<Str>, x: Str)
    requires Sorted(t)
    requires |t| > 0 ==> LessEq(t[|t| - 1], x)
    ensures Sorted(t + [x])
  {
    forall i | 0 <= i < |t|
      ensures LessEq(t[i], x)
    {
      if i < |t| - 1 {
        LessEqTransitive(t[i], t[|t| - 1], x);
      }
    }
  }

  /** LessEq in both directions means equal strings. */
  lemma LessEqAntisymmetric(a: Str, b: Str)
    requires LessEq(a, b) && LessEq(b, a)
    ensures a == b
  {
    LessEqIsLessOrEqual(a, b);
    if a != b {
      LessAsymmetric(a, b);
    }
  }

  /** Removing the first element removes one copy of it from the multiset. */
  lemma MultisetTail<T>(s: seq<T>)
    requires |s| > 0
    ensures multiset(s[1..]) == multiset(s) - multiset{s[0]}
  {
    assert s == [s[0]] + s[1..];
  }

  /** Two sorted permutations of the same strings start with the same one. */
  lemma SortedPermutationHead(x: seq<Str>, y: seq<Str>)
    requires Sorted(x) && Sorted(y)
    requires multiset(x) == multiset(y)
    requires |x| > 0 && |y| > 0
    ensures x[0] == y[0]
  {
    assert x[0] in multiset(y);
    var k :| 0 <= k < |y| && y[k] == x[0];
    assert y[0] in multiset(x);
    var l :| 0 <= l < |x| && x[l] == y[0];
    LessIrreflexive(x[0]);
    LessIrreflexive(y[0]);
    assert LessEq(y[0], x[0]) by {
      if k > 0 {
        assert LessEq(y[0], y[k]);
      }
    }
    assert LessEq(x[0], y[0]) by {
      if l > 0 {
        assert LessEq(x[0], x[l]);
      }
    }
    LessEqAntisymmetric(x[0], y[0]);
  }

  /** A sorted run is determined by its multiset: two sorted permutations of
      the same strings are the same sequence. */
  lemma {:induction false} SortedPermutationUnique(x: seq<Str>, y: seq<Str>)
    requires Sorted(x) && Sorted(y)
    requires multiset(x) == multiset(y)
    ensures x == y
    decreases |x|
  {
    assert |x| == |multiset(x)| == |multiset(y)| == |y|;
    if |x| > 0 {
      SortedPermutationHead(x, y);
      MultisetTail(x);
      MultisetTail(y);
      assert Sorted(x[1..]) && Sorted(y[1..]);
      SortedPermutationUnique(x[1..], y[1..]);
      assert x == [x[0]] + x[1..] && y == [y[0]] + y[1..];
    }
  }
}
