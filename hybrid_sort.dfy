/** SET9/A1/a1rq.cpp, class HybridMSDQuickSort: the MSD radix sort of
    a1r.cpp with a cut-off. A range of fewer than 50 strings is copied into a
    vector of its own, sorted there by the file's copy of StringQuickSort
    (which starts again at character 0 and resets its own counter) and
    copied back. A larger range is bucketed on its character at index like
    MSDRadixSort, but only the non-empty buckets are visited: each is sorted
    in its own vector at index + 1 and copied to the next free positions.
    The copy of StringQuickSort in a1rq.cpp is the class of a1q.cpp line for
    line, and is modelled once, in StringQuickSort. */
module HybridSort {
  import opened Strings
  import Q = StringQuickSort
  import R = MsdRadixSort

  /** Ranges shorter than this go to StringQuickSort. */
  const Threshold: nat := 50

  // ---------------------------------------------------------------------------
  // The functional model

  /** hybridMSDQuickSort on the contents s of a range: nothing for fewer than
      two strings or once index reaches maxLength; StringQuickSort::sort for
      fewer than 50, which counts nothing here; otherwise one counted pass per
      string and the non-empty buckets, each sorted at index + 1, in key
      order. The fallback may run out of fuel, and then so does the call. */
  function HybridOf(s: seq<Str>, index: nat, maxLength: nat, fuel: nat): (r: Q.Outcome)
    decreases maxLength - index, R.BucketCount + 1
  {
    if |s| <= 1 || index >= maxLength then Q.Done(s, 0)
    else if |s| < Threshold then
      match Q.QuickSortOf(s, 0, |s|, 0, fuel)
      case Diverged => Q.Diverged
      case Done(t, _) => Q.Done(t, 0)
    else
      match BucketsOf(s, index, maxLength, fuel, R.BucketCount)
      case Diverged => Q.Diverged
      case Done(t, n) => Q.Done(t, |s| + n)
  }

  /** Buckets 0 .. c - 1 of s at index, the non-empty ones sorted at
      index + 1, in key order, with the passes their calls counted. */
  function BucketsOf(s: seq<Str>, index: nat, maxLength: nat, fuel: nat, c: nat): (r: Q.Outcome)
    requires index < maxLength && c <= R.BucketCount
    decreases maxLength - index, c
  {
    if c == 0 then Q.Done([], 0)
    else
      match BucketsOf(s, index, maxLength, fuel, c - 1)
      case Diverged => Q.Diverged
      case Done(left, n) =>
        var b := R.Bucket(s, index, c - 1);
        if |b| == 0 then Q.Done(left, n)
        else
          match HybridOf(b, index + 1, maxLength, fuel)
          case Diverged => Q.Diverged
          case Done(t, m) => Q.Done(left + t, n + m)
  }

  // ---------------------------------------------------------------------------
  // Properties of the functional model

  /** Once a bucket's call runs out of fuel, so does the whole write-back. */
  lemma {:induction false} BucketsOfDivergedStays(s: seq<Str>, index: nat, maxLength: nat, fuel: nat, c: nat, d: nat)
    requires index < maxLength && c <= d <= R.BucketCount
    requires BucketsOf(s, index, maxLength, fuel, c).Diverged?
    ensures BucketsOf(s, index, maxLength, fuel, d).Diverged?
    decreases d
  {
    if c < d {
      BucketsOfDivergedStays(s, index, maxLength, fuel, c, d - 1);
    }
  }

  /** A call that finishes has permuted its strings. */
  lemma {:induction false} HybridPermutes(s: seq<Str>, index: nat, maxLength: nat, fuel: nat)
    requires AllInBucketRange(s)
    ensures var o := HybridOf(s, index, maxLength, fuel);
      o.Done? ==> multiset(o.s) == multiset(s)
    decreases maxLength - index, R.BucketCount + 1
  {
    if |s| <= 1 || index >= maxLength {
    } else if |s| < Threshold {
      Q.QuickSortOfPermutes(s, 0, |s|, 0, fuel);
    } else {
      BucketsOfPermutes(s, index, maxLength, fuel, R.BucketCount);
      R.KeysBelowAll(s, index);
    }
  }

  /** The buckets written back before bucket c are a permutation of the
      strings with keys 0 .. c - 1. */
  lemma {:induction false} BucketsOfPermutes(s: seq<Str>, index: nat, maxLength: nat, fuel: nat, c: nat)
    requires index < maxLength && c <= R.BucketCount
    requires AllInBucketRange(s)
    ensures var o := BucketsOf(s, index, maxLength, fuel, c);
      o.Done? ==> multiset(o.s) == multiset(R.KeysBelow(s, index, c))
    decreases maxLength - index, c, 2
  {
    if c == 0 {
      R.KeysBelowNone(s, index);
    } else {
      BucketsOfPermutesStep(s, index, maxLength, fuel, c);
    }
  }

  /** The step of BucketsOfPermutes from c - 1 to c. */
  lemma {:induction false} BucketsOfPermutesStep(s: seq<Str>, index: nat, maxLength: nat, fuel: nat, c: nat)
    requires index < maxLength && 0 < c <= R.BucketCount
    requires AllInBucketRange(s)
    ensures var o := BucketsOf(s, index, maxLength, fuel, c);
      o.Done? ==> multiset(o.s) == multiset(R.KeysBelow(s, index, c))
    decreases maxLength - index, c, 1
  {
    var r := BucketsOf(s, index, maxLength, fuel, c);
    if r.Done? {
      var o := BucketsOf(s, index, maxLength, fuel, c - 1);
      var b := R.Bucket(s, index, c - 1);
      BucketsOfUnfold(s, index, maxLength, fuel, c);
      BucketsBelowPermute(s, index, maxLength, fuel, c);
      BucketPermutes(s, index, maxLength, fuel, c);
      R.KeysBelowGrowMultiset(s, index, c);
      var t := if |b| == 0 then b else HybridOf(b, index + 1, maxLength, fuel).s;
      AppendPermutes(o.s, t, R.KeysBelow(s, index, c - 1), b, R.KeysBelow(s, index, c));
    }
  }

  /** BucketsOf at c finishes only if it finished at c - 1 and the bucket's
      call did, and then appends what that call left. */
  lemma BucketsOfUnfold(s: seq<Str>, index: nat, maxLength: nat, fuel: nat, c: nat)
    requires index < maxLength && 0 < c <= R.BucketCount
    ensures var r := BucketsOf(s, index, maxLength, fuel, c);
      var o := BucketsOf(s, index, maxLength, fuel, c - 1);
      var b := R.Bucket(s, index, c - 1);
      var h := HybridOf(b, index + 1, maxLength, fuel);
      r.Done? ==> o.Done? && (|b| == 0 ==> r.s == o.s + b) && (|b| > 0 ==> h.Done? && r.s == o.s + h.s)
  {
    var b := R.Bucket(s, index, c - 1);
    var o := BucketsOf(s, index, maxLength, fuel, c - 1);
    if |b| == 0 && o.Done? {
      assert o.s + b == o.s;
    }
  }

  /** BucketsOfPermutes at c - 1. */
  lemma {:induction false} BucketsBelowPermute(s: seq<Str>, index: nat, maxLength: nat, fuel: nat, c: nat)
    requires index < maxLength && 0 < c <= R.BucketCount
    requires AllInBucketRange(s)
    ensures var o := BucketsOf(s, index, maxLength, fuel, c - 1);
      o.Done? ==> multiset(o.s) == multiset(R.KeysBelow(s, index, c - 1))
    decreases maxLength - index, c, 0
  {
    var o := BucketsOf(s, index, maxLength, fuel, c - 1);
    BucketsOfPermutes(s, index, maxLength, fuel, c - 1);
    assert o.Done? ==> multiset(o.s) == multiset(R.KeysBelow(s, index, c - 1));
  }

  /** BucketsOf with one more bucket, c, taken in: what the write-back loop
      does for bucket c. */
  lemma BucketsOfNext(s: seq<Str>, index: nat, maxLength: nat, fuel: nat, c: nat)
    requires index < maxLength && c < R.BucketCount
    ensures var o := BucketsOf(s, index, maxLength, fuel, c);
      var b := R.Bucket(s, index, c);
      var h := HybridOf(b, index + 1, maxLength, fuel);
      BucketsOf(s, index, maxLength, fuel, c + 1) ==
        if o.Diverged? then Q.Diverged
        else if |b| == 0 then o
        else if h.Diverged? then Q.Diverged
        else Q.Done(o.s + h.s, o.count + h.count)
    ensures |R.KeysBelow(s, index, c + 1)| == |R.KeysBelow(s, index, c)| + |R.Bucket(s, index, c)|
  {
    var d := c + 1;
    assert d - 1 == c;
    R.KeysBelowGrow(s, index, d);
  }

  /** The call on bucket c - 1, when it finishes, permutes the bucket. */
  lemma {:induction false} BucketPermutes(s: seq<Str>, index: nat, maxLength: nat, fuel: nat, c: nat)
    requires index < maxLength && 0 < c && AllInBucketRange(s)
    ensures var b := R.Bucket(s, index, c - 1); var h := HybridOf(b, index + 1, maxLength, fuel);
      h.Done? ==> multiset(h.s) == multiset(b)
    decreases maxLength - index - 1, R.BucketCount + 2
  {
    R.BucketInRange(s, index, c - 1);
    HybridPermutes(R.Bucket(s, index, c - 1), index + 1, maxLength, fuel);
  }

  /** Appending a permutation of b to a permutation of the keys below c - 1
      gives a permutation of the keys below c. */
  lemma AppendPermutes(left: seq<Str>, t: seq<Str>, below: seq<Str>, b: seq<Str>, all: seq<Str>)
    requires multiset(left) == multiset(below) && multiset(t) == multiset(b)
    requires multiset(all) == multiset(below) + multiset(b)
    ensures multiset(left + t) == multiset(all)
  {
    assert multiset(left + t) == multiset(left) + multiset(t);
  }

  /** A bucket's call that finishes leaves strings of s with key c. */
  lemma HybridMembers(s: seq<Str>, index: nat, maxLength: nat, fuel: nat, c: int, y: Str)
    requires AllInBucketRange(s)
    requires var o := HybridOf(R.Bucket(s, index, c), index + 1, maxLength, fuel);
      o.Done? && y in o.s
    ensures y in s && Key(y, index) == c
  {
    var b := R.Bucket(s, index, c);
    R.BucketInRange(s, index, c);
    HybridPermutes(b, index + 1, maxLength, fuel);
    R.SameElements(HybridOf(b, index + 1, maxLength, fuel).s, b, y);
    R.BucketMembers(s, index, c, y);
  }

  /** The finished write-back of buckets 0 .. c - 1 holds strings of s with
      keys below c. */
  lemma BucketsOfMembers(s: seq<Str>, index: nat, maxLength: nat, fuel: nat, c: nat, x: Str)
    requires index < maxLength && c <= R.BucketCount && AllInBucketRange(s)
    requires var o := BucketsOf(s, index, maxLength, fuel, c); o.Done? && x in o.s
    ensures x in s && 0 <= Key(x, index) < c
  {
    BucketsOfPermutes(s, index, maxLength, fuel, c);
    R.SameElements(BucketsOf(s, index, maxLength, fuel, c).s, R.KeysBelow(s, index, c), x);
    R.KeysBelowMembers(s, index, c, x);
  }

  /** After a bucketing pass that finishes, the keys at index never decrease
      across the range. */
  lemma HybridKeysOrdered(s: seq<Str>, index: nat, maxLength: nat, fuel: nat)
    requires AllInBucketRange(s)
    requires Threshold <= |s| && index < maxLength
    ensures var o := HybridOf(s, index, maxLength, fuel);
      o.Done? ==> forall i, j :: 0 <= i < j < |o.s| ==> Key(o.s[i], index) <= Key(o.s[j], index)
  {
    BucketsOfKeysOrdered(s, index, maxLength, fuel, R.BucketCount);
  }

  /** The finished write-back of buckets 0 .. c - 1 has non-decreasing keys
      at index, all below c. */
  lemma {:induction false} BucketsOfKeysOrdered(s: seq<Str>, index: nat, maxLength: nat, fuel: nat, c: nat)
    requires index < maxLength && c <= R.BucketCount
    requires AllInBucketRange(s)
    ensures var o := BucketsOf(s, index, maxLength, fuel, c);
      o.Done? ==> R.KeysOrderedBelow(o.s, index, c)
  {
    if c > 0 {
      BucketsOfKeysOrdered(s, index, maxLength, fuel, c - 1);
      BucketsOfKeysOrderedStep(s, index, maxLength, fuel, c);
    }
  }

  /** The step of BucketsOfKeysOrdered from c - 1 to c. */
  lemma BucketsOfKeysOrderedStep(s: seq<Str>, index: nat, maxLength: nat, fuel: nat, c: nat)
    requires index < maxLength && 0 < c <= R.BucketCount
    requires AllInBucketRange(s)
    requires var o := BucketsOf(s, index, maxLength, fuel, c - 1);
      o.Done? ==> R.KeysOrderedBelow(o.s, index, c - 1)
    ensures var o := BucketsOf(s, index, maxLength, fuel, c);
      o.Done? ==> R.KeysOrderedBelow(o.s, index, c)
  {
    var r := BucketsOf(s, index, maxLength, fuel, c);
    if r.Done? {
      var o := BucketsOf(s, index, maxLength, fuel, c - 1);
      var b := R.Bucket(s, index, c - 1);
      BucketsOfUnfold(s, index, maxLength, fuel, c);
      if |b| > 0 {
        var t := HybridOf(b, index + 1, maxLength, fuel).s;
        forall j | 0 <= j < |t|
          ensures Key(t[j], index) == c - 1
        {
          BucketCallKeys(s, index, maxLength, fuel, c, t[j]);
        }
        KeysOrderedAppend(o.s, t, index, c);
      } else {
        assert r.s == o.s;
      }
    }
  }

  /** A string left by the finished call on bucket c - 1 has key c - 1. */
  lemma BucketCallKeys(s: seq<Str>, index: nat, maxLength: nat, fuel: nat, c: nat, y: Str)
    requires 0 < c && AllInBucketRange(s)
    requires var h := HybridOf(R.Bucket(s, index, c - 1), index + 1, maxLength, fuel);
      h.Done? && y in h.s
    ensures Key(y, index) == c - 1
  {
    var d := c - 1;
    HybridMembers(s, index, maxLength, fuel, d, y);
  }

  /** Strings of key c - 1 appended to strings with ordered keys below
      c - 1 keep the keys ordered, now below c. */
  lemma KeysOrderedAppend(left: seq<Str>, t: seq<Str>, index: nat, c: int)
    requires R.KeysOrderedBelow(left, index, c - 1)
    requires forall j :: 0 <= j < |t| ==> Key(t[j], index) == c - 1
    ensures R.KeysOrderedBelow(left + t, index, c)
  {
    var r := left + t;
    assert forall i :: 0 <= i < |r| ==> r[i] == if i < |left| then left[i] else t[i - |left|];
  }

  /** Strings of one length n, over 1..127, that share the keys prefix:
      a call at index |prefix| that finishes leaves them sorted, since the
      quicksort fallback sorts strings of one length. */
  lemma {:induction false} HybridSortsUniform(s: seq<Str>, prefix: seq<int>, maxLength: nat, fuel: nat, n: nat)
    requires Q.Uniform(s, n) && n <= maxLength && R.HasKeys(s, prefix)
    ensures var o := HybridOf(s, |prefix|, maxLength, fuel);
      o.Done? ==> Sorted(o.s)
    decreases maxLength - |prefix|, R.BucketCount + 1
  {
    var index := |prefix|;
    if |s| <= 1 {
    } else if index >= maxLength {
      forall i, j | 0 <= i < j < |s|
        ensures LessEq(s[i], s[j])
      {
        assert ValidStr(s[i]) && ValidStr(s[j]);
        R.HasKeysSame(s, prefix, i, j);
        SameKeysEqual(s[i], s[j], index);
        LessIrreflexive(s[i]);
      }
    } else if |s| < Threshold {
      Q.QuickSortOfSortsUniform(s, 0, |s|, 0, fuel, n);
    } else {
      BucketsOfSortsUniform(s, prefix, maxLength, fuel, n, R.BucketCount);
    }
  }

  /** The finished write-back of buckets 0 .. c - 1 of such strings is
      sorted. */
  lemma {:induction false} BucketsOfSortsUniform(s: seq<Str>, prefix: seq<int>, maxLength: nat, fuel: nat, n: nat, c: nat)
    requires |prefix| < maxLength && c <= R.BucketCount
    requires Q.Uniform(s, n) && n <= maxLength && R.HasKeys(s, prefix)
    ensures var o := BucketsOf(s, |prefix|, maxLength, fuel, c);
      o.Done? ==> Sorted(o.s)
    decreases maxLength - |prefix|, c
  {
    if c > 0 {
      var index := |prefix|;
      var b := R.Bucket(s, index, c - 1);
      assert var o := BucketsOf(s, index, maxLength, fuel, c - 1); o.Done? ==> Sorted(o.s) by {
        BucketsOfSortsUniform(s, prefix, maxLength, fuel, n, c - 1);
      }
      assert var h := HybridOf(b, index + 1, maxLength, fuel); h.Done? ==> Sorted(h.s) by {
        BucketUniform(s, prefix, n, c - 1);
        HybridSortsUniform(b, prefix + [c - 1], maxLength, fuel, n);
      }
      BucketsOfSortedStep(s, prefix, maxLength, fuel, c);
    }
  }

  /** The step of BucketsOfSortsUniform from c - 1 to c. */
  lemma BucketsOfSortedStep(s: seq<Str>, prefix: seq<int>, maxLength: nat, fuel: nat, c: nat)
    requires |prefix| < maxLength && 0 < c <= R.BucketCount
    requires AllValid(s) && R.HasKeys(s, prefix)
    requires var o := BucketsOf(s, |prefix|, maxLength, fuel, c - 1); o.Done? ==> Sorted(o.s)
    requires var h := HybridOf(R.Bucket(s, |prefix|, c - 1), |prefix| + 1, maxLength, fuel); h.Done? ==> Sorted(h.s)
    ensures var o := BucketsOf(s, |prefix|, maxLength, fuel, c); o.Done? ==> Sorted(o.s)
  {
    var index := |prefix|;
    var o := BucketsOf(s, index, maxLength, fuel, c - 1);
    var b := R.Bucket(s, index, c - 1);
    if o.Done? && |b| > 0 {
      var h := HybridOf(b, index + 1, maxLength, fuel);
      if h.Done? {
        R.ValidInBucketRange(s);
        forall i, j | 0 <= i < |o.s| && 0 <= j < |h.s|
          ensures LessEq(o.s[i], h.s[j])
        {
          var x, y := o.s[i], h.s[j];
          assert x in o.s && y in h.s;
          BucketsOfMembers(s, index, maxLength, fuel, c - 1, x);
          HybridMembers(s, index, maxLength, fuel, c - 1, y);
          var p :| 0 <= p < |s| && s[p] == x;
          var q :| 0 <= q < |s| && s[q] == y;
          assert ValidStr(x) && ValidStr(y);
          R.HasKeysSame(s, prefix, p, q);
          KeyDecides(x, y, index);
          LessImpliesLessEq(x, y);
        }
        SortedConcat(o.s, h.s);
      }
    }
  }

  /** A bucket of strings of one length n with keys prefix has keys
      prefix + [c] and length n. */
  lemma BucketUniform(s: seq<Str>, prefix: seq<int>, n: nat, c: int)
    requires Q.Uniform(s, n) && R.HasKeys(s, prefix)
    ensures var b := R.Bucket(s, |prefix|, c);
      Q.Uniform(b, n) && R.HasKeys(b, prefix + [c])
  {
    var b := R.Bucket(s, |prefix|, c);
    forall i | 0 <= i < |b|
      ensures ValidStr(b[i]) && |b[i]| == n
      ensures forall k :: 0 <= k < |prefix| + 1 ==> Key(b[i], k) == (prefix + [c])[k]
    {
      assert b[i] in b;
      R.BucketMembers(s, |prefix|, c, b[i]);
      var p :| 0 <= p < |s| && s[p] == b[i];
    }
  }

  /** Strings of one length n over 1..127 make every call finish once the
      fuel covers the fallback's deepest recursion, on fewer than 50
      strings of length n; the bucketing passes themselves take no fuel. */
  lemma {:induction false} HybridFinishesUniform(s: seq<Str>, index: nat, maxLength: nat, fuel: nat, n: nat)
    requires Q.Uniform(s, n) && fuel + 1 >= Threshold + n
    ensures HybridOf(s, index, maxLength, fuel).Done?
    decreases maxLength - index, R.BucketCount + 1
  {
    if |s| <= 1 || index >= maxLength {
    } else if |s| < Threshold {
      Q.QuickSortOfFinishesUniform(s, 0, |s|, 0, fuel, n);
    } else {
      BucketsOfFinishesUniform(s, index, maxLength, fuel, n, R.BucketCount);
    }
  }

  /** The write-back of buckets 0 .. c - 1 of such strings finishes. */
  lemma {:induction false} BucketsOfFinishesUniform(s: seq<Str>, index: nat, maxLength: nat, fuel: nat, n: nat, c: nat)
    requires index < maxLength && c <= R.BucketCount
    requires Q.Uniform(s, n) && fuel + 1 >= Threshold + n
    ensures BucketsOf(s, index, maxLength, fuel, c).Done?
    decreases maxLength - index, c
  {
    if c > 0 {
      BucketsOfFinishesUniform(s, index, maxLength, fuel, n, c - 1);
      var b := R.Bucket(s, index, c - 1);
      forall i | 0 <= i < |b|
        ensures ValidStr(b[i]) && |b[i]| == n
      {
        assert b[i] in b;
        R.BucketMembers(s, index, c - 1, b[i]);
      }
      HybridFinishesUniform(b, index + 1, maxLength, fuel, n);
      BucketsOfNext(s, index, maxLength, fuel, c - 1);
    }
  }

  /** sort on strings of one length n over 1..127 leaves them, when the
      fallback finishes, as a sorted permutation; and it finishes when the
      fuel allows 49 + n nested calls of the fallback. */
  lemma HybridSortCorrectUniform(s: seq<Str>, n: nat, fuel: nat)
    requires Q.Uniform(s, n)
    ensures var o := HybridOf(s, 0, R.MaxLength(s), fuel);
      (o.Done? ==> Sorted(o.s) && multiset(o.s) == multiset(s))
      && (fuel + 1 >= Threshold + n ==> o.Done?)
  {
    if fuel + 1 >= Threshold + n {
      HybridFinishesUniform(s, 0, R.MaxLength(s), fuel, n);
    }
    var m := if |s| == 0 then 0 else n;
    if |s| > 0 {
      assert |s[0]| == n;
    }
    HybridSortsUniform(s, [], R.MaxLength(s), fuel, m);
    R.ValidInBucketRange(s);
    HybridPermutes(s, 0, R.MaxLength(s), fuel);
  }

  /** "aaaa", "b", "bc": three strings go to StringQuickSort, whose result
      is out of order; the hybrid's own counter stays at 0. */
  lemma HybridInheritsPrefixDefect(fuel: nat)
    requires fuel >= 2
    ensures HybridOf([[97, 97, 97, 97], [98], [98, 99]], 0, 4, fuel)
            == Q.Done([[97, 97, 97, 97], [98, 99], [98]], 0)
    ensures !Sorted([[97, 97, 97, 97], [98, 99], [98]])
  {
    Q.PrefixPlacedAfter(fuel);
  }

  /** "aa", "b", "b": StringQuickSort never finishes on them, so neither does
      the hybrid. */
  lemma HybridInheritsDivergence(fuel: nat)
    ensures HybridOf([[97, 97], [98], [98]], 0, 2, fuel) == Q.Diverged
  {
    Q.EqualShortStringsDiverge(fuel);
  }

  // ---------------------------------------------------------------------------
  // The class

  class HybridMsdQuickSort {
    /** The static compareCount of HybridMSDQuickSort. */
    var compareCount: int
    /** StringQuickSort's static state, which the fallback updates. */
    const quick: Q.StringQuickSort

    constructor()
      ensures compareCount == 0
    {
      compareCount := 0;
      quick := new Q.StringQuickSort();
    }

    /** sort(array): resets the counter and sorts from character 0 up to the
        longest string's length; false when a fallback runs out of fuel. */
    method Sort(a: array<Str>, fuel: nat) returns (finished: bool)
      requires AllInBucketRange(a[..])
      modifies this, a, quick
      ensures var o := HybridOf(old(a[..]), 0, R.MaxLength(old(a[..])), fuel);
        finished == o.Done? && (finished ==> a[..] == o.s && compareCount == o.count)
    {
      compareCount := 0;
      var maxLength := R.MsdRadixSort.FindMaxLength(a);
      assert a[0..a.Length] == a[..];
      finished := HybridRange(a, 0, a.Length, 0, maxLength, fuel);
      assert a[0..a.Length] == a[..];
    }

    /** hybridMSDQuickSort(array, start, end, index, maxLength). */
    method HybridRange(a: array<Str>, start: int, end: int, index: nat, maxLength: nat, fuel: nat) returns (finished: bool)
      requires 0 <= start <= end <= a.Length
      requires AllInBucketRange(a[start..end])
      modifies this, a, quick
      ensures var o := HybridOf(old(a[start..end]), index, maxLength, fuel);
        finished == o.Done? && (finished ==> a[start..end] == o.s && compareCount == old(compareCount) + o.count)
      ensures forall k :: 0 <= k < a.Length && !(start <= k < end) ==> a[k] == old(a[k])
      decreases maxLength - index, 3
    {
      if start >= end - 1 || index >= maxLength {
        return true;
      }
      if end - start < Threshold {
        finished := Fallback(a, start, end, fuel);
        return;
      }
      var buckets := FillBuckets(a, start, end, index);
      finished := WriteBack(a, buckets[..], start, end, index, maxLength, fuel);
    }

    /** The cut-off: the range copied into a vector of its own, sorted there
        by StringQuickSort::sort and copied back. */
    method Fallback(a: array<Str>, start: int, end: int, fuel: nat) returns (finished: bool)
      requires 0 <= start <= end <= a.Length
      modifies a, quick
      ensures var o := Q.QuickSortOf(old(a[start..end]), 0, end - start, 0, fuel);
        finished == o.Done? && (finished ==> a[start..end] == o.s)
      ensures forall k :: 0 <= k < a.Length && !(start <= k < end) ==> a[k] == old(a[k])
    {
      ghost var s := a[start..end];
      var sub := new Str[end - start](i requires 0 <= i < end - start reads a => a[start + i]);
      assert sub[..] == s;
      finished := quick.Sort(sub, fuel);
      if finished {
        CopyInto(a, sub, start);
      }
    }

    /** The bucketing loop: one counted pass per string, each string pushed
        onto the bucket of its character at index, 0 once it has ended. */
    method FillBuckets(a: array<Str>, start: int, end: int, index: nat) returns (buckets: array<seq<Str>>)
      requires 0 <= start <= end <= a.Length
      requires AllInBucketRange(a[start..end])
      modifies this
      ensures fresh(buckets) && buckets.Length == R.BucketCount
      ensures forall c :: 0 <= c < R.BucketCount ==> buckets[c] == R.Bucket(a[start..end], index, c)
      ensures compareCount == old(compareCount) + (end - start)
    {
      buckets := new seq<Str>[R.BucketCount](_ => []);
      for i := start to end
        invariant forall c :: 0 <= c < R.BucketCount ==> buckets[c] == R.Bucket(a[start..i], index, c)
        invariant compareCount == old(compareCount) + (i - start)
      {
        compareCount := compareCount + 1;
        assert a[i] == a[start..end][i - start];
        var c := if index < |a[i]| then a[i][index] else 0;
        assert a[start..i + 1][..i - start] == a[start..i];
        buckets[c] := buckets[c] + [a[i]];
      }
    }

    /** The state of the write-back loop before bucket c: positions start ..
        pos - 1 hold buckets 0 .. c - 1 as the model writes them, and the
        counter has grown by what their calls counted. */
    ghost predicate Filled(a: array<Str>, s: seq<Str>, start: int, pos: int, end: int,
                           index: nat, maxLength: nat, fuel: nat, c: nat, base: int)
      reads this, a
    {
      && 0 <= start <= pos <= end <= a.Length && index < maxLength && c <= R.BucketCount
      && var o := BucketsOf(s, index, maxLength, fuel, c);
         o.Done? && a[start..pos] == o.s && pos - start == |R.KeysBelow(s, index, c)| && compareCount == base + o.count
    }

    /** The write-back loop: the non-empty buckets in key order, each sorted
        in its own vector at index + 1 and copied to the next positions. */
    method WriteBack(a: array<Str>, buckets: seq<seq<Str>>, start: int, end: int, index: nat, maxLength: nat, fuel: nat)
      returns (finished: bool)
      requires 0 <= start <= end <= a.Length && index < maxLength
      requires AllInBucketRange(a[start..end])
      requires |buckets| == R.BucketCount
      requires forall c :: 0 <= c < R.BucketCount ==> buckets[c] == R.Bucket(a[start..end], index, c)
      modifies this, a, quick
      ensures var o := BucketsOf(old(a[start..end]), index, maxLength, fuel, R.BucketCount);
        finished == o.Done? && (finished ==> a[start..end] == o.s && compareCount == old(compareCount) + o.count)
      ensures forall k :: 0 <= k < a.Length && !(start <= k < end) ==> a[k] == old(a[k])
      decreases maxLength - index, 2
    {
      ghost var s := a[start..end];
      var pos := start;
      R.KeysBelowNone(s, index);
      for c := 0 to R.BucketCount
        invariant Filled(a, s, start, pos, end, index, maxLength, fuel, c, old(compareCount))
        invariant forall k :: 0 <= k < a.Length && !(start <= k < end) ==> a[k] == old(a[k])
      {
        var done;
        done, pos := AppendBucket(a, s, buckets[c], start, pos, end, index, maxLength, fuel, c, old(compareCount));
        if !done {
          return false;
        }
      }
      assert pos == end by {
        R.KeysBelowAll(s, index);
      }
      return true;
    }

    /** One step of the write-back loop: bucket c, unless empty, sorted in
        its own vector and copied after buckets 0 .. c - 1. */
    method AppendBucket(a: array<Str>, ghost s: seq<Str>, bucket: seq<Str>, start: int, pos: int, end: int,
                        index: nat, maxLength: nat, fuel: nat, c: nat, ghost base: int) returns (done: bool, next: int)
      requires c < R.BucketCount && |s| == end - start && AllInBucketRange(s)
      requires bucket == R.Bucket(s, index, c)
      requires Filled(a, s, start, pos, end, index, maxLength, fuel, c, base)
      modifies this, a, quick
      ensures done ==> Filled(a, s, start, next, end, index, maxLength, fuel, c + 1, base)
      ensures !done ==> BucketsOf(s, index, maxLength, fuel, R.BucketCount).Diverged?
      ensures forall k :: 0 <= k < a.Length && !(start <= k < end) ==> a[k] == old(a[k])
      decreases maxLength - index, 1
    {
      BucketsOfNext(s, index, maxLength, fuel, c);
      if |bucket| == 0 {
        return true, pos;
      }
      R.BucketInRange(s, index, c);
      var b;
      done, b := SortBucket(bucket, index, maxLength, fuel);
      if !done {
        BucketsOfDivergedStays(s, index, maxLength, fuel, c + 1, R.BucketCount);
        return false, pos;
      }
      AppendAt(a, b, start, pos);
      next := pos + b.Length;
    }

    /** A non-empty bucket copied into a vector of its own and sorted there
        at index + 1. */
    method SortBucket(bucket: seq<Str>, index: nat, maxLength: nat, fuel: nat) returns (done: bool, b: array<Str>)
      requires index < maxLength && AllInBucketRange(bucket)
      modifies this, quick
      ensures fresh(b) && b.Length == |bucket|
      ensures var h := HybridOf(bucket, index + 1, maxLength, fuel);
        done == h.Done? && (done ==> b[..] == h.s && compareCount == old(compareCount) + h.count)
      decreases maxLength - index, 0
    {
      b := new Str[|bucket|](i requires 0 <= i < |bucket| => bucket[i]);
      assert b[0..b.Length] == bucket;
      done := HybridRange(b, 0, b.Length, index + 1, maxLength, fuel);
      assert b[0..b.Length] == b[..];
    }

    /** CopyInto at pos, seen from start: what was at start .. pos - 1 is
        followed by b. */
    static method AppendAt(a: array<Str>, b: array<Str>, start: int, pos: int)
      requires 0 <= start <= pos && pos + b.Length <= a.Length && a != b
      modifies a
      ensures a[start..pos + b.Length] == old(a[start..pos]) + b[..]
      ensures forall k :: 0 <= k < a.Length && !(pos <= k < pos + b.Length) ==> a[k] == old(a[k])
    {
      ghost var placed := a[start..pos];
      CopyInto(a, b, pos);
      assert a[start..pos] == placed;
      assert a[start..pos + b.Length] == a[start..pos] + a[pos..pos + b.Length];
    }

    /** std::copy of a sorted bucket into array at pos. */
    static method CopyInto(a: array<Str>, b: array<Str>, pos: int)
      requires 0 <= pos && pos + b.Length <= a.Length && a != b
      modifies a
      ensures a[pos..pos + b.Length] == b[..]
      ensures forall k :: 0 <= k < a.Length && !(pos <= k < pos + b.Length) ==> a[k] == old(a[k])
    {
      for k := 0 to b.Length
        invariant forall i :: 0 <= i < k ==> a[pos + i] == b[i]
        invariant forall i :: 0 <= i < a.Length && !(pos <= i < pos + b.Length) ==> a[i] == old(a[i])
      {
        a[pos + k] := b[k];
      }
    }
  }
}
