/** SET9/A1/a1r.cpp, class MSDRadixSort: most-significant-digit radix sort
    with 128 buckets. A pass over [start, end) at index drops every string
    into the bucket of its character there (0 once the string has ended),
    writes the buckets back in key order and sorts each bucket's positions at
    index + 1, empty buckets and bucket 0 included. Passes stop at ranges of
    fewer than two strings and at the longest string's length. */
module MsdRadixSort {
  import opened Strings

  // ---------------------------------------------------------------------------
  // The functional model

  /** The number of buckets: one per character code 0..127. */
  const BucketCount: nat := 128

  /** The strings of s whose key at index is c, in their order in s. */
  function Bucket(s: seq<Str>, index: nat, c: int): (b: seq<Str>)
    ensures |b| <= |s|
  {
    if |s| == 0 then []
    else Bucket(s[..|s| - 1], index, c) + (if Key(s[|s| - 1], index) == c then [s[|s| - 1]] else [])
  }

  /** The strings of s whose key at index is in 0 .. c - 1, in their order
      in s. */
  function KeysBelow(s: seq<Str>, index: nat, c: int): (r: seq<Str>)
    ensures |r| <= |s|
  {
    if |s| == 0 then []
    else KeysBelow(s[..|s| - 1], index, c) + (if 0 <= Key(s[|s| - 1], index) < c then [s[|s| - 1]] else [])
  }

  /** msdRadixSort on the contents s of a range: nothing for fewer than two
      strings or once index reaches maxLength, else the 128 buckets written
      back in key order, each sorted at index + 1. */
  function RadixOf(s: seq<Str>, index: nat, maxLength: nat): seq<Str>
    decreases maxLength - index, BucketCount + 1
  {
    if |s| <= 1 || index >= maxLength then s else ConcatBelow(s, index, maxLength, BucketCount)
  }

  /** Buckets 0 .. c - 1 of s at index, each sorted at index + 1, in key
      order: what the write-back loop has placed before bucket c. */
  function ConcatBelow(s: seq<Str>, index: nat, maxLength: nat, c: nat): seq<Str>
    requires index < maxLength && c <= BucketCount
    decreases maxLength - index, c
  {
    if c == 0 then []
    else ConcatBelow(s, index, maxLength, c - 1) + RadixOf(Bucket(s, index, c - 1), index + 1, maxLength)
  }

  /** The passes msdRadixSort counts on s: one per string per bucketing pass. */
  function RadixCostOf(s: seq<Str>, index: nat, maxLength: nat): nat
    decreases maxLength - index, BucketCount + 1
  {
    if |s| <= 1 || index >= maxLength then 0 else |s| + CostBelow(s, index, maxLength, BucketCount)
  }

  /** The passes counted by the recursive calls on buckets 0 .. c - 1. */
  function CostBelow(s: seq<Str>, index: nat, maxLength: nat, c: nat): nat
    requires index < maxLength && c <= BucketCount
    decreases maxLength - index, c
  {
    if c == 0 then 0
    else CostBelow(s, index, maxLength, c - 1) + RadixCostOf(Bucket(s, index, c - 1), index + 1, maxLength)
  }

  /** The length of the longest string, 0 for no strings. */
  function MaxLength(s: seq<Str>): (m: nat)
    ensures forall k :: 0 <= k < |s| ==> |s[k]| <= m
    ensures |s| == 0 ==> m == 0
    ensures |s| > 0 ==> exists k :: 0 <= k < |s| && |s[k]| == m
  {
    if |s| == 0 then 0
    else if MaxLength(s[..|s| - 1]) < |s[|s| - 1]| then |s[|s| - 1]|
    else MaxLength(s[..|s| - 1])
  }

  // ---------------------------------------------------------------------------
  // The class

  class MsdRadixSort {
    /** The static compareCount of a1r.cpp. */
    var compareCount: int

    constructor()
      ensures compareCount == 0
    {
      compareCount := 0;
    }

    /** sort(array): resets the counter and sorts from character 0 up to the
        longest string's length. */
    method Sort(a: array<Str>)
      requires AllInBucketRange(a[..])
      modifies this, a
      ensures a[..] == RadixOf(old(a[..]), 0, MaxLength(old(a[..])))
      ensures compareCount == RadixCostOf(old(a[..]), 0, MaxLength(old(a[..])))
    {
      compareCount := 0;
      var maxLength := FindMaxLength(a);
      assert a[0..a.Length] == a[..];
      RadixSortRange(a, 0, a.Length, 0, maxLength);
      assert a[0..a.Length] == a[..];
    }

    /** findMaxLength: a running maximum of the lengths. */
    static method FindMaxLength(a: array<Str>) returns (m: nat)
      ensures m == MaxLength(a[..])
    {
      m := 0;
      for i := 0 to a.Length
        invariant m == MaxLength(a[..i])
      {
        assert a[..i + 1][..i] == a[..i];
        if |a[i]| > m {
          m := |a[i]|;
        }
      }
      assert a[..a.Length] == a[..];
    }

    /** msdRadixSort(array, start, end, index, maxLength). */
    method RadixSortRange(a: array<Str>, start: int, end: int, index: nat, maxLength: nat)
      requires 0 <= start <= end <= a.Length
      requires AllInBucketRange(a[start..end])
      modifies this, a
      ensures a[start..end] == RadixOf(old(a[start..end]), index, maxLength)
      ensures forall k :: 0 <= k < a.Length && !(start <= k < end) ==> a[k] == old(a[k])
      ensures compareCount == old(compareCount) + RadixCostOf(old(a[start..end]), index, maxLength)
      decreases maxLength - index, 3
    {
      if start >= end - 1 || index >= maxLength {
        return;
      }
      var buckets := FillBuckets(a, start, end, index);
      WriteBack(a, buckets[..], start, end, index, maxLength);
    }

    /** The bucketing loop: one counted pass per string, each string pushed
        onto the bucket of its character at index, 0 once it has ended. */
    method FillBuckets(a: array<Str>, start: int, end: int, index: nat) returns (buckets: array<seq<Str>>)
      requires 0 <= start <= end <= a.Length
      requires AllInBucketRange(a[start..end])
      modifies this
      ensures fresh(buckets) && buckets.Length == BucketCount
      ensures forall c :: 0 <= c < BucketCount ==> buckets[c] == Bucket(a[start..end], index, c)
      ensures compareCount == old(compareCount) + (end - start)
    {
      buckets := new seq<Str>[BucketCount](_ => []);
      for i := start to end
        invariant forall c :: 0 <= c < BucketCount ==> buckets[c] == Bucket(a[start..i], index, c)
        invariant compareCount == old(compareCount) + (i - start)
      {
        compareCount := compareCount + 1;
        assert a[i] == a[start..end][i - start];
        var c := if index < |a[i]| then a[i][index] else 0;
        assert a[start..i + 1][..i - start] == a[start..i];
        buckets[c] := buckets[c] + [a[i]];
      }
    }

    /** The state of the write-back loop before bucket c: positions start ..
        pos - 1 hold buckets 0 .. c - 1, each sorted at index + 1, and the
        counter has grown by what sorting them counted. */
    ghost predicate Placed(a: array<Str>, s: seq<Str>, start: int, pos: int, end: int,
                           index: nat, maxLength: nat, c: nat, base: int)
      reads this, a
    {
      && 0 <= start <= pos <= end <= a.Length && index < maxLength && c <= BucketCount
      && a[start..pos] == ConcatBelow(s, index, maxLength, c)
      && pos - start == |KeysBelow(s, index, c)|
      && compareCount == base + CostBelow(s, index, maxLength, c)
    }

    /** The write-back loop: every bucket in key order, copied to the next
        positions and sorted there at index + 1. */
    method WriteBack(a: array<Str>, buckets: seq<seq<Str>>, start: int, end: int, index: nat, maxLength: nat)
      requires 0 <= start <= end <= a.Length && index < maxLength
      requires AllInBucketRange(a[start..end])
      requires |buckets| == BucketCount
      requires forall c :: 0 <= c < BucketCount ==> buckets[c] == Bucket(a[start..end], index, c)
      modifies this, a
      ensures a[start..end] == ConcatBelow(old(a[start..end]), index, maxLength, BucketCount)
      ensures forall k :: 0 <= k < a.Length && !(start <= k < end) ==> a[k] == old(a[k])
      ensures compareCount == old(compareCount) + CostBelow(old(a[start..end]), index, maxLength, BucketCount)
      decreases maxLength - index, 2
    {
      ghost var s := a[start..end];
      var pos := start;
      KeysBelowNone(s, index);
      for c := 0 to BucketCount
        invariant Placed(a, s, start, pos, end, index, maxLength, c, old(compareCount))
        invariant forall k :: 0 <= k < a.Length && !(start <= k < end) ==> a[k] == old(a[k])
      {
        pos := AppendBucket(a, s, buckets[c], start, pos, end, index, maxLength, c, old(compareCount));
      }
      KeysBelowAll(s, index);
    }

    /** One step of the write-back loop: bucket c lands after buckets
        0 .. c - 1. */
    method AppendBucket(a: array<Str>, ghost s: seq<Str>, bucket: seq<Str>, start: int, pos: int, end: int,
                        index: nat, maxLength: nat, c: nat, ghost base: int) returns (next: int)
      requires c < BucketCount && |s| == end - start && AllInBucketRange(s)
      requires bucket == Bucket(s, index, c)
      requires Placed(a, s, start, pos, end, index, maxLength, c, base)
      modifies this, a
      ensures Placed(a, s, start, next, end, index, maxLength, c + 1, base)
      ensures forall k :: 0 <= k < a.Length && !(start <= k < end) ==> a[k] == old(a[k])
      decreases maxLength - index, 1
    {
      ConcatBelowNext(s, index, maxLength, c);
      BucketInRange(s, index, c);
      ghost var placed := a[start..pos];
      PlaceBucket(a, pos, bucket, index, maxLength);
      assert a[start..pos] == placed;
      next := pos + |bucket|;
      assert a[start..next] == a[start..pos] + a[pos..next];
    }

    /** One bucket of the write-back loop: copied to pos and sorted there at
        index + 1. */
    method PlaceBucket(a: array<Str>, pos: int, bucket: seq<Str>, index: nat, maxLength: nat)
      requires 0 <= pos && pos + |bucket| <= a.Length && index < maxLength
      requires AllInBucketRange(bucket)
      modifies this, a
      ensures a[pos..pos + |bucket|] == RadixOf(bucket, index + 1, maxLength)
      ensures forall k :: 0 <= k < a.Length && !(pos <= k < pos + |bucket|) ==> a[k] == old(a[k])
      ensures compareCount == old(compareCount) + RadixCostOf(bucket, index + 1, maxLength)
      decreases maxLength - index, 0
    {
      for k := 0 to |bucket|
        invariant forall i :: 0 <= i < k ==> a[pos + i] == bucket[i]
        invariant compareCount == old(compareCount)
        invariant forall i :: 0 <= i < a.Length && !(pos <= i < pos + |bucket|) ==> a[i] == old(a[i])
      {
        a[pos + k] := bucket[k];
      }
      assert a[pos..pos + |bucket|] == bucket;
      RadixSortRange(a, pos, pos + |bucket|, index + 1, maxLength);
    }
  }

  // ---------------------------------------------------------------------------
  // Properties of the functional model

  /** A bucket holds strings of s with key c. */
  lemma {:induction false} BucketMembers(s: seq<Str>, index: nat, c: int, x: Str)
    requires x in Bucket(s, index, c)
    ensures x in s && Key(x, index) == c
  {
    if |s| > 0 {
      var t := s[..|s| - 1];
      if x in Bucket(t, index, c) {
        BucketMembers(t, index, c, x);
        assert x in s by { var i :| 0 <= i < |t| && t[i] == x; assert s[i] == x; }
      }
    }
  }

  /** Bucket c, sorted, extends the write-back of the buckets below it. */
  lemma ConcatBelowNext(s: seq<Str>, index: nat, maxLength: nat, c: nat)
    requires index < maxLength && c < BucketCount
    ensures ConcatBelow(s, index, maxLength, c + 1) ==
      ConcatBelow(s, index, maxLength, c) + RadixOf(Bucket(s, index, c), index + 1, maxLength)
    ensures CostBelow(s, index, maxLength, c + 1) ==
      CostBelow(s, index, maxLength, c) + RadixCostOf(Bucket(s, index, c), index + 1, maxLength)
    ensures |KeysBelow(s, index, c + 1)| == |KeysBelow(s, index, c)| + |Bucket(s, index, c)|
  {
    var d := c + 1;
    assert d - 1 == c;
    KeysBelowGrow(s, index, d);
  }

  /** No key is below 0. */
  lemma {:induction false} KeysBelowNone(s: seq<Str>, index: nat)
    ensures KeysBelow(s, index, 0) == []
  {
    if |s| > 0 {
      KeysBelowNone(s[..|s| - 1], index);
    }
  }

  /** Bucket c holds exactly the strings with key c among those below c + 1:
      the count. */
  lemma {:induction false} KeysBelowGrow(s: seq<Str>, index: nat, c: nat)
    requires 0 < c
    ensures |KeysBelow(s, index, c)| == |KeysBelow(s, index, c - 1)| + |Bucket(s, index, c - 1)|
  {
    if |s| > 0 {
      KeysBelowGrow(s[..|s| - 1], index, c);
    }
  }

  /** Bucket c holds exactly the strings with key c among those below c + 1:
      the contents. */
  lemma {:induction false} KeysBelowGrowMultiset(s: seq<Str>, index: nat, c: nat)
    requires 0 < c
    ensures multiset(KeysBelow(s, index, c)) == multiset(KeysBelow(s, index, c - 1)) + multiset(Bucket(s, index, c - 1))
  {
    if |s| > 0 {
      var t, x := s[..|s| - 1], s[|s| - 1];
      KeysBelowGrowMultiset(t, index, c);
      var k := Key(x, index);
      if 0 <= k < c - 1 {
        assert KeysBelow(s, index, c) == KeysBelow(t, index, c) + [x];
        assert KeysBelow(s, index, c - 1) == KeysBelow(t, index, c - 1) + [x];
        assert Bucket(s, index, c - 1) == Bucket(t, index, c - 1) + [];
      } else if k == c - 1 {
        assert KeysBelow(s, index, c) == KeysBelow(t, index, c) + [x];
        assert KeysBelow(s, index, c - 1) == KeysBelow(t, index, c - 1) + [];
        assert Bucket(s, index, c - 1) == Bucket(t, index, c - 1) + [x];
      } else {
        assert KeysBelow(s, index, c) == KeysBelow(t, index, c) + [];
        assert KeysBelow(s, index, c - 1) == KeysBelow(t, index, c - 1) + [];
        assert Bucket(s, index, c - 1) == Bucket(t, index, c - 1) + [];
      }
    }
  }

  /** With characters 0..127 every key is below 128. */
  lemma {:induction false} KeysBelowAll(s: seq<Str>, index: nat)
    requires AllInBucketRange(s)
    ensures KeysBelow(s, index, BucketCount) == s
  {
    if |s| > 0 {
      var t, x := s[..|s| - 1], s[|s| - 1];
      forall i, k | 0 <= i < |t| && 0 <= k < |t[i]|
        ensures 0 <= t[i][k] < 128
      {
        assert t[i] == s[i];
      }
      KeysBelowAll(t, index);
      if index < |x| {
        assert 0 <= s[|s| - 1][index] < 128;
      }
      assert t + [x] == s;
    }
  }

  /** A bucket keeps characters 0..127. */
  lemma BucketInRange(s: seq<Str>, index: nat, c: int)
    requires AllInBucketRange(s)
    ensures AllInBucketRange(Bucket(s, index, c))
  {
    var b := Bucket(s, index, c);
    forall i, k | 0 <= i < |b| && 0 <= k < |b[i]|
      ensures 0 <= b[i][k] < 128
    {
      BucketMembers(s, index, c, b[i]);
    }
  }

  /** KeysBelow holds strings of s with keys 0 .. c - 1. */
  lemma {:induction false} KeysBelowMembers(s: seq<Str>, index: nat, c: int, x: Str)
    requires x in KeysBelow(s, index, c)
    ensures x in s && 0 <= Key(x, index) < c
  {
    if |s| > 0 {
      var t := s[..|s| - 1];
      if x in KeysBelow(t, index, c) {
        KeysBelowMembers(t, index, c, x);
        assert x in s by { var i :| 0 <= i < |t| && t[i] == x; assert s[i] == x; }
      }
    }
  }

  /** A permutation holds the same elements. */
  lemma SameElements(a: seq<Str>, b: seq<Str>, x: Str)
    requires multiset(a) == multiset(b) && x in a
    ensures x in b
  {
    assert x in multiset(a);
  }

  /** Every string of s has the keys prefix at positions 0 .. |prefix| - 1. */
  predicate HasKeys(s: seq<Str>, prefix: seq<int>) {
    forall i, k :: 0 <= i < |s| && 0 <= k < |prefix| ==> Key(s[i], k) == prefix[k]
  }

  /** No string of s is longer than n. */
  predicate LengthsAtMost(s: seq<Str>, n: nat) {
    forall i :: 0 <= i < |s| ==> |s[i]| <= n
  }

  /** Two strings of a range with common keys agree below the prefix. */
  lemma HasKeysSame(s: seq<Str>, prefix: seq<int>, i: int, j: int)
    requires HasKeys(s, prefix) && 0 <= i < |s| && 0 <= j < |s|
    ensures SameKeysBelow(s[i], s[j], |prefix|)
  {
    forall k: nat | k < |prefix|
      ensures Key(s[i], k) == Key(s[j], k)
    {
      assert Key(s[i], k) == prefix[k] && Key(s[j], k) == prefix[k];
    }
  }

  /** msdRadixSort rearranges: the result is a permutation of its input. */
  lemma {:induction false} RadixOfPermutes(s: seq<Str>, index: nat, maxLength: nat)
    requires AllInBucketRange(s)
    ensures multiset(RadixOf(s, index, maxLength)) == multiset(s)
    decreases maxLength - index, BucketCount + 1
  {
    if |s| > 1 && index < maxLength {
      ConcatBelowPermutes(s, index, maxLength, BucketCount);
      KeysBelowAll(s, index);
    }
  }

  /** The buckets written back before bucket c are a permutation of the
      strings with keys 0 .. c - 1. */
  lemma {:induction false} ConcatBelowPermutes(s: seq<Str>, index: nat, maxLength: nat, c: nat)
    requires index < maxLength && c <= BucketCount
    requires AllInBucketRange(s)
    ensures multiset(ConcatBelow(s, index, maxLength, c)) == multiset(KeysBelow(s, index, c))
    decreases maxLength - index, c, 2
  {
    if c == 0 {
      KeysBelowNone(s, index);
    } else {
      ConcatBelowPermutesStep(s, index, maxLength, c);
    }
  }

  /** The step of ConcatBelowPermutes from c - 1 to c. */
  lemma {:induction false} ConcatBelowPermutesStep(s: seq<Str>, index: nat, maxLength: nat, c: nat)
    requires index < maxLength && 0 < c <= BucketCount
    requires AllInBucketRange(s)
    ensures multiset(ConcatBelow(s, index, maxLength, c)) == multiset(KeysBelow(s, index, c))
    decreases maxLength - index, c, 1
  {
    var left := ConcatBelow(s, index, maxLength, c - 1);
    var b := Bucket(s, index, c - 1);
    var right := RadixOf(b, index + 1, maxLength);
    ConcatBelowPrevPermutes(s, index, maxLength, c);
    BucketRadixPermutes(s, index, maxLength, c);
    KeysBelowGrowMultiset(s, index, c);
    assert ConcatBelow(s, index, maxLength, c) == left + right;
    assert multiset(left + right) == multiset(left) + multiset(right);
  }

  /** ConcatBelowPermutes at c - 1. */
  lemma {:induction false} ConcatBelowPrevPermutes(s: seq<Str>, index: nat, maxLength: nat, c: nat)
    requires index < maxLength && 0 < c <= BucketCount
    requires AllInBucketRange(s)
    ensures multiset(ConcatBelow(s, index, maxLength, c - 1)) == multiset(KeysBelow(s, index, c - 1))
    decreases maxLength - index, c, 0
  {
    var left := ConcatBelow(s, index, maxLength, c - 1);
    ConcatBelowPermutes(s, index, maxLength, c - 1);
  }

  /** Bucket c - 1, sorted at index + 1, is a permutation of the bucket. */
  lemma {:induction false} BucketRadixPermutes(s: seq<Str>, index: nat, maxLength: nat, c: nat)
    requires index < maxLength && 0 < c && AllInBucketRange(s)
    ensures var b := Bucket(s, index, c - 1); multiset(RadixOf(b, index + 1, maxLength)) == multiset(b)
    decreases maxLength - index - 1, BucketCount + 2
  {
    var b := Bucket(s, index, c - 1);
    BucketInRange(s, index, c - 1);
    RadixOfPermutes(b, index + 1, maxLength);
  }

  /** The buckets written back before bucket c hold strings of s with keys
      below c. */
  lemma ConcatBelowMembers(s: seq<Str>, index: nat, maxLength: nat, c: nat, x: Str)
    requires index < maxLength && c <= BucketCount && AllInBucketRange(s)
    requires x in ConcatBelow(s, index, maxLength, c)
    ensures x in s && 0 <= Key(x, index) < c
  {
    ConcatBelowPermutes(s, index, maxLength, c);
    SameElements(ConcatBelow(s, index, maxLength, c), KeysBelow(s, index, c), x);
    KeysBelowMembers(s, index, c, x);
  }

  /** Bucket c, once sorted at index + 1, holds strings of s with key c. */
  lemma RadixOfMembers(s: seq<Str>, index: nat, maxLength: nat, c: int, y: Str)
    requires AllInBucketRange(s)
    requires y in RadixOf(Bucket(s, index, c), index + 1, maxLength)
    ensures y in s && Key(y, index) == c
  {
    var b := Bucket(s, index, c);
    BucketInRange(s, index, c);
    RadixOfPermutes(b, index + 1, maxLength);
    SameElements(RadixOf(b, index + 1, maxLength), b, y);
    BucketMembers(s, index, c, y);
  }

  /** Characters 1..127 are bucket keys. */
  lemma ValidInBucketRange(s: seq<Str>)
    requires AllValid(s)
    ensures AllInBucketRange(s)
  {
    forall i, k | 0 <= i < |s| && 0 <= k < |s[i]|
      ensures 0 <= s[i][k] < 128
    {
      assert ValidStr(s[i]);
    }
  }

  /** With characters 1..127, strings no longer than maxLength that share
      their keys below index come out sorted from the pass at index. */
  lemma {:induction false} RadixOfSorted(s: seq<Str>, prefix: seq<int>, maxLength: nat)
    requires AllValid(s) && HasKeys(s, prefix) && LengthsAtMost(s, maxLength)
    ensures Sorted(RadixOf(s, |prefix|, maxLength))
    decreases maxLength - |prefix|, BucketCount + 1
  {
    var index := |prefix|;
    if |s| <= 1 {
    } else if index >= maxLength {
      forall i, j | 0 <= i < j < |s|
        ensures LessEq(s[i], s[j])
      {
        assert ValidStr(s[i]) && ValidStr(s[j]);
        HasKeysSame(s, prefix, i, j);
        SameKeysEqual(s[i], s[j], index);
        LessIrreflexive(s[i]);
      }
    } else {
      ConcatBelowSorted(s, prefix, maxLength, BucketCount);
    }
  }

  /** The buckets written back before bucket c form a sorted run. */
  lemma {:induction false} ConcatBelowSorted(s: seq<Str>, prefix: seq<int>, maxLength: nat, c: nat)
    requires |prefix| < maxLength && c <= BucketCount
    requires AllValid(s) && HasKeys(s, prefix) && LengthsAtMost(s, maxLength)
    ensures Sorted(ConcatBelow(s, |prefix|, maxLength, c))
    decreases maxLength - |prefix|, c
  {
    if c > 0 {
      var index := |prefix|;
      var b := Bucket(s, index, c - 1);
      assert Sorted(ConcatBelow(s, index, maxLength, c - 1)) by {
        ConcatBelowSorted(s, prefix, maxLength, c - 1);
      }
      assert Sorted(RadixOf(b, index + 1, maxLength)) by {
        BucketKeys(s, prefix, maxLength, c - 1);
        RadixOfSorted(b, prefix + [c - 1], maxLength);
      }
      ConcatBelowSortedStep(s, prefix, maxLength, c);
    }
  }

  /** The step of ConcatBelowSorted from c - 1 to c: every string of the
      earlier buckets has a smaller key at index than every string of bucket
      c - 1, and they agree below index. */
  lemma ConcatBelowSortedStep(s: seq<Str>, prefix: seq<int>, maxLength: nat, c: nat)
    requires |prefix| < maxLength && 0 < c <= BucketCount
    requires AllValid(s) && HasKeys(s, prefix)
    requires Sorted(ConcatBelow(s, |prefix|, maxLength, c - 1))
    requires Sorted(RadixOf(Bucket(s, |prefix|, c - 1), |prefix| + 1, maxLength))
    ensures Sorted(ConcatBelow(s, |prefix|, maxLength, c))
  {
    var index := |prefix|;
    var left := ConcatBelow(s, index, maxLength, c - 1);
    var b := Bucket(s, index, c - 1);
    var right := RadixOf(b, index + 1, maxLength);
    ValidInBucketRange(s);
    forall i, j | 0 <= i < |left| && 0 <= j < |right|
      ensures LessEq(left[i], right[j])
    {
      var x, y := left[i], right[j];
      assert x in left && y in right;
      ConcatBelowMembers(s, index, maxLength, c - 1, x);
      RadixOfMembers(s, index, maxLength, c - 1, y);
      var p :| 0 <= p < |s| && s[p] == x;
      var q :| 0 <= q < |s| && s[q] == y;
      assert ValidStr(x) && ValidStr(y);
      HasKeysSame(s, prefix, p, q);
      KeyDecides(x, y, index);
      LessImpliesLessEq(x, y);
    }
    SortedConcat(left, right);
    assert ConcatBelow(s, index, maxLength, c) == left + right;
  }

  /** Bucket c of strings with keys prefix has keys prefix + [c], and keeps
      the alphabet and the length bound. */
  lemma BucketKeys(s: seq<Str>, prefix: seq<int>, maxLength: nat, c: int)
    requires AllValid(s) && HasKeys(s, prefix) && LengthsAtMost(s, maxLength)
    ensures var b := Bucket(s, |prefix|, c);
      AllValid(b) && HasKeys(b, prefix + [c]) && LengthsAtMost(b, maxLength)
  {
    var b := Bucket(s, |prefix|, c);
    forall i | 0 <= i < |b|
      ensures ValidStr(b[i]) && |b[i]| <= maxLength
      ensures forall k :: 0 <= k < |prefix| + 1 ==> Key(b[i], k) == (prefix + [c])[k]
    {
      assert b[i] in b;
      BucketMembers(s, |prefix|, c, b[i]);
      var p :| 0 <= p < |s| && s[p] == b[i];
    }
  }

  /** After a pass, the keys at index never decrease across the range. */
  lemma RadixOfKeysOrdered(s: seq<Str>, index: nat, maxLength: nat)
    requires AllInBucketRange(s)
    requires |s| > 1 && index < maxLength
    ensures var r := RadixOf(s, index, maxLength);
      forall i, j :: 0 <= i < j < |r| ==> Key(r[i], index) <= Key(r[j], index)
  {
    ConcatBelowKeysOrdered(s, index, maxLength, BucketCount);
  }

  /** Keys at index never decrease across r and stay below c. */
  predicate KeysOrderedBelow(r: seq<Str>, index: nat, c: int) {
    (forall i, j :: 0 <= i < j < |r| ==> Key(r[i], index) <= Key(r[j], index)) &&
    (forall i :: 0 <= i < |r| ==> Key(r[i], index) < c)
  }

  /** The buckets written back before bucket c have non-decreasing keys at
      index, all below c. */
  lemma {:induction false} ConcatBelowKeysOrdered(s: seq<Str>, index: nat, maxLength: nat, c: nat)
    requires index < maxLength && c <= BucketCount
    requires AllInBucketRange(s)
    ensures KeysOrderedBelow(ConcatBelow(s, index, maxLength, c), index, c)
  {
    if c > 0 {
      ConcatBelowKeysOrdered(s, index, maxLength, c - 1);
      ConcatBelowKeysOrderedStep(s, index, maxLength, c);
    }
  }

  /** The step of ConcatBelowKeysOrdered from c - 1 to c. */
  lemma ConcatBelowKeysOrderedStep(s: seq<Str>, index: nat, maxLength: nat, c: nat)
    requires index < maxLength && 0 < c <= BucketCount
    requires AllInBucketRange(s)
    requires KeysOrderedBelow(ConcatBelow(s, index, maxLength, c - 1), index, c - 1)
    ensures KeysOrderedBelow(ConcatBelow(s, index, maxLength, c), index, c)
  {
    var left := ConcatBelow(s, index, maxLength, c - 1);
    var b := Bucket(s, index, c - 1);
    var right := RadixOf(b, index + 1, maxLength);
    forall j | 0 <= j < |right|
      ensures Key(right[j], index) == c - 1
    {
      assert right[j] in right;
      RadixOfMembers(s, index, maxLength, c - 1, right[j]);
    }
    var r := left + right;
    assert ConcatBelow(s, index, maxLength, c) == r;
    assert forall i :: 0 <= i < |r| ==> r[i] == if i < |left| then left[i] else right[i - |left|];
  }

  /** msdRadixSort counts at most one pass per string per character
      position from index up to maxLength. */
  lemma {:induction false} RadixCostBound(s: seq<Str>, index: nat, maxLength: nat)
    requires index <= maxLength
    ensures RadixCostOf(s, index, maxLength) <= |s| * (maxLength - index)
    decreases maxLength - index, BucketCount + 1
  {
    if |s| > 1 && index < maxLength {
      var n := |KeysBelow(s, index, BucketCount)|;
      CostBelowBound(s, index, maxLength, BucketCount);
      MonotoneLeft(n, |s|, maxLength - index - 1);
      MulPred(|s|, maxLength - index);
      assert RadixCostOf(s, index, maxLength) == |s| + CostBelow(s, index, maxLength, BucketCount);
    }
  }

  /** The recursive calls on buckets 0 .. c - 1 count at most one pass per
      string of those buckets per position after index. */
  lemma {:induction false} CostBelowBound(s: seq<Str>, index: nat, maxLength: nat, c: nat)
    requires index < maxLength && c <= BucketCount
    ensures CostBelow(s, index, maxLength, c) <= |KeysBelow(s, index, c)| * (maxLength - index - 1)
    decreases maxLength - index, c
  {
    if c == 0 {
      KeysBelowNone(s, index);
    } else {
      var b := Bucket(s, index, c - 1);
      var d := maxLength - index - 1;
      CostBelowBound(s, index, maxLength, c - 1);
      RadixCostBound(b, index + 1, maxLength);
      KeysBelowGrow(s, index, c);
      assert CostBelow(s, index, maxLength, c) == CostBelow(s, index, maxLength, c - 1) + RadixCostOf(b, index + 1, maxLength);
      DistributeRight(|KeysBelow(s, index, c - 1)|, |b|, d);
    }
  }

  lemma DistributeRight(x: nat, y: nat, d: nat)
    ensures (x + y) * d == x * d + y * d
  {
  }

  lemma MonotoneLeft(x: nat, y: nat, d: nat)
    requires x <= y
    ensures x * d <= y * d
  {
  }

  lemma MulPred(x: nat, e: nat)
    requires 0 < e
    ensures x * e == x * (e - 1) + x
  {
  }

  /** sort leaves any strings over 1..127 as a sorted permutation. */
  lemma RadixSortCorrect(s: seq<Str>)
    requires AllValid(s)
    ensures var r := RadixOf(s, 0, MaxLength(s));
      Sorted(r) && multiset(r) == multiset(s)
  {
    RadixOfSorted(s, [], MaxLength(s));
    ValidInBucketRange(s);
    RadixOfPermutes(s, 0, MaxLength(s));
  }
}
