/** SET9/A1/a1m.cpp, class StringMergeSort: a merge sort over (string,
    offset) pairs whose merge orders distinct heads with std::string's < and
    falls back to lcpCompare only for heads that are equal strings. Equal
    heads are emitted once, so repeated strings are merged away. */
module LcpMergeSort {
  import opened Strings

  /** std::pair<std::string, int>: a string and the offset from which
      lcpCompare starts comparing it. */
  datatype Entry = Entry(str: Str, offset: nat)

  /** The strings of a run of entries. */
  function Strs(p: seq<Entry>): (r: seq<Str>)
    ensures |r| == |p| && forall k :: 0 <= k < |p| ==> r[k] == p[k].str
  {
    seq(|p|, k requires 0 <= k < |p| => p[k].str)
  }

  function Max(x: int, y: int): int {
    if x >= y then x else y
  }

  /** No string occurs twice. */
  predicate Distinct(s: seq<Str>) {
    forall i, j :: 0 <= i < j < |s| ==> s[i] != s[j]
  }

  predicate ZeroOffsets(p: seq<Entry>) {
    forall k :: 0 <= k < |p| ==> p[k].offset == 0
  }

  // ---------------------------------------------------------------------------
  // The functional model

  /** lcpCompare(a, b, index): the first position at or after index where a
      and b differ, or the shorter length when there is none. */
  function LcpFrom(a: Str, b: Str, index: nat): (r: nat)
    ensures index <= Min(|a|, |b|) ==> index <= r <= Min(|a|, |b|)
    ensures index <= Min(|a|, |b|) ==> forall k :: index <= k < r ==> a[k] == b[k]
    ensures r < Min(|a|, |b|) ==> a[r] != b[r]
    ensures index >= Min(|a|, |b|) ==> r == Min(|a|, |b|)
    decreases Min(|a|, |b|) - index
  {
    if index >= Min(|a|, |b|) then Min(|a|, |b|)
    else if a[index] != b[index] then index
    else LcpFrom(a, b, index + 1)
  }

  /** The positions lcpCompare(a, b, index) examines: one per loop pass. */
  function LcpCost(a: Str, b: Str, index: nat): nat {
    var n := Min(|a|, |b|);
    var r := LcpFrom(a, b, index);
    if r < n then r - index + 1 else if index < n then n - index else 0
  }

  /** stringMerge(P, Q): distinct heads are ordered by <, the smaller one is
      emitted unchanged; for heads that are equal strings lcpCompare starts
      at the larger offset, and when it reaches the end of either string
      only P's head is emitted and both heads are consumed. */
  function MergeOf(p: seq<Entry>, q: seq<Entry>): seq<Entry>
    decreases |p| + |q|
  {
    if |p| == 0 then q
    else if |q| == 0 then p
    else if Less(p[0].str, q[0].str) then [p[0]] + MergeOf(p[1..], q)
    else if Less(q[0].str, p[0].str) then [q[0]] + MergeOf(p, q[1..])
    else
      var lcp := LcpFrom(p[0].str, q[0].str, Max(p[0].offset, q[0].offset));
      if lcp < |p[0].str| && lcp < |q[0].str| then
        if p[0].str[lcp] < q[0].str[lcp] then [Entry(p[0].str, lcp)] + MergeOf(p[1..], q)
        else [Entry(q[0].str, lcp)] + MergeOf(p, q[1..])
      else [p[0]] + MergeOf(p[1..], q[1..])
  }

  /** The counter stringMerge adds: min(|P[i]|, |Q[j]|) for distinct heads,
      the positions lcpCompare examines for equal ones. */
  function MergeCostOf(p: seq<Entry>, q: seq<Entry>): nat
    decreases |p| + |q|
  {
    if |p| == 0 || |q| == 0 then 0
    else if Less(p[0].str, q[0].str) then Min(|p[0].str|, |q[0].str|) + MergeCostOf(p[1..], q)
    else if Less(q[0].str, p[0].str) then Min(|p[0].str|, |q[0].str|) + MergeCostOf(p, q[1..])
    else
      var index := Max(p[0].offset, q[0].offset);
      var lcp := LcpFrom(p[0].str, q[0].str, index);
      LcpCost(p[0].str, q[0].str, index) +
      if lcp < |p[0].str| && lcp < |q[0].str| then
        if p[0].str[lcp] < q[0].str[lcp] then MergeCostOf(p[1..], q) else MergeCostOf(p, q[1..])
      else MergeCostOf(p[1..], q[1..])
  }

  /** The number of merge steps that meet two equal strings and drop Q's. */
  function DroppedOf(p: seq<Entry>, q: seq<Entry>): nat
    decreases |p| + |q|
  {
    if |p| == 0 || |q| == 0 then 0
    else if Less(p[0].str, q[0].str) then DroppedOf(p[1..], q)
    else if Less(q[0].str, p[0].str) then DroppedOf(p, q[1..])
    else 1 + DroppedOf(p[1..], q[1..])
  }

  /** stringMergeSort(strings): zero or one string paired with offset 0,
      otherwise the merge of the sorted halves split at size / 2. */
  function MergeSortOf(s: seq<Str>): seq<Entry>
    decreases |s|
  {
    if |s| == 0 then []
    else if |s| == 1 then [Entry(s[0], 0)]
    else MergeOf(MergeSortOf(s[..|s| / 2]), MergeSortOf(s[|s| / 2..]))
  }

  function MergeSortCostOf(s: seq<Str>): nat
    decreases |s|
  {
    if |s| <= 1 then 0
    else MergeSortCostOf(s[..|s| / 2]) + MergeSortCostOf(s[|s| / 2..])
         + MergeCostOf(MergeSortOf(s[..|s| / 2]), MergeSortOf(s[|s| / 2..]))
  }

  // ---------------------------------------------------------------------------
  // Properties of the functional model

  /** lcpCompare of a string with itself runs to its end, from any index. */
  lemma LcpOfEqual(a: Str, index: nat)
    ensures LcpFrom(a, a, index) == |a|
    ensures LcpCost(a, a, index) == if index < |a| then |a| - index else 0
  {
  }

  /** Heads that are not ordered either way are equal strings, so the lcp
      branch of stringMerge is never taken: the merge emits P's head, drops
      Q's, and charges the positions from the larger offset to the end. */
  lemma EqualHeads(p: seq<Entry>, q: seq<Entry>)
    requires |p| > 0 && |q| > 0
    requires !Less(p[0].str, q[0].str) && !Less(q[0].str, p[0].str)
    ensures p[0].str == q[0].str
    ensures MergeOf(p, q) == [p[0]] + MergeOf(p[1..], q[1..])
    ensures MergeCostOf(p, q) == LcpCost(p[0].str, p[0].str, Max(p[0].offset, q[0].offset)) + MergeCostOf(p[1..], q[1..])
  {
    LessTotal(p[0].str, q[0].str);
    LcpOfEqual(p[0].str, Max(p[0].offset, q[0].offset));
  }

  /** The strings of a run with one more entry in front. */
  lemma StrsCons(e: Entry, r: seq<Entry>)
    ensures Strs([e] + r) == [e.str] + Strs(r)
  {
  }

  /** Merging keeps every string of either run, and adds none. */
  lemma {:induction false} MergeOfMembers(p: seq<Entry>, q: seq<Entry>)
    ensures forall x :: x in Strs(MergeOf(p, q)) <==> x in Strs(p) || x in Strs(q)
    decreases |p| + |q|
  {
    if |p| > 0 && |q| > 0 {
      StrsCons(p[0], p[1..]);
      StrsCons(q[0], q[1..]);
      assert p == [p[0]] + p[1..] && q == [q[0]] + q[1..];
      if Less(p[0].str, q[0].str) {
        MergeOfMembers(p[1..], q);
        StrsCons(p[0], MergeOf(p[1..], q));
      } else if Less(q[0].str, p[0].str) {
        MergeOfMembers(p, q[1..]);
        StrsCons(q[0], MergeOf(p, q[1..]));
      } else {
        EqualHeads(p, q);
        MergeOfMembers(p[1..], q[1..]);
        StrsCons(p[0], MergeOf(p[1..], q[1..]));
      }
    }
  }

  /** Every string of a strictly ascending run after its head lies above a
      string no greater than that head. */
  lemma BelowRunTail(x: Str, p: seq<Entry>)
    requires StrictlySorted(Strs(p)) && |p| > 0 && LessEq(x, p[0].str)
    ensures forall k :: 0 <= k < |p| - 1 ==> Less(x, p[1..][k].str)
  {
    forall k | 0 <= k < |p| - 1
      ensures Less(x, p[1..][k].str)
    {
      assert Less(Strs(p)[0], Strs(p)[k + 1]);
      LessEqLessTransitive(x, p[0].str, p[k + 1].str);
    }
  }

  /** The merge of two strictly ascending runs is strictly ascending: the
      emitted head is below everything still to come. */
  lemma {:induction false} MergeOfStrictlySorted(p: seq<Entry>, q: seq<Entry>)
    requires StrictlySorted(Strs(p)) && StrictlySorted(Strs(q))
    ensures StrictlySorted(Strs(MergeOf(p, q)))
    decreases |p| + |q|
  {
    if |p| > 0 && |q| > 0 {
      assert Strs(p[1..]) == Strs(p)[1..] && Strs(q[1..]) == Strs(q)[1..];
      if Less(p[0].str, q[0].str) {
        MergeOfStrictlySorted(p[1..], q);
        StrictLeftStep(p, q);
      } else if Less(q[0].str, p[0].str) {
        MergeOfStrictlySorted(p, q[1..]);
        StrictRightStep(p, q);
      } else {
        EqualHeads(p, q);
        MergeOfStrictlySorted(p[1..], q[1..]);
        StrictEqualStep(p, q);
      }
    }
  }

  /** The step of MergeOfStrictlySorted that emits P's smaller head. */
  lemma StrictLeftStep(p: seq<Entry>, q: seq<Entry>)
    requires |p| > 0 && |q| > 0 && Less(p[0].str, q[0].str)
    requires StrictlySorted(Strs(p)) && StrictlySorted(Strs(q))
    requires StrictlySorted(Strs(MergeOf(p[1..], q)))
    ensures StrictlySorted(Strs(MergeOf(p, q)))
  {
    var x := p[0].str;
    LessIrreflexive(x);
    BelowRunTail(x, p);
    LessImpliesLessEq(x, q[0].str);
    BelowRunTail(x, q);
    assert forall k :: 0 <= k < |q| ==> Less(x, q[k].str) by {
      forall k | 0 < k < |q| ensures Less(x, q[k].str) {
        assert q[k] == q[1..][k - 1];
      }
    }
    MergeHeadBelow(x, p[1..], q);
    StrsCons(p[0], MergeOf(p[1..], q));
    StrictlySortedCons(x, Strs(MergeOf(p[1..], q)));
  }

  /** The step of MergeOfStrictlySorted that emits Q's smaller head. */
  lemma StrictRightStep(p: seq<Entry>, q: seq<Entry>)
    requires |p| > 0 && |q| > 0 && Less(q[0].str, p[0].str)
    requires StrictlySorted(Strs(p)) && StrictlySorted(Strs(q))
    requires StrictlySorted(Strs(MergeOf(p, q[1..])))
    ensures StrictlySorted(Strs(MergeOf(p, q)))
  {
    var x := q[0].str;
    LessIrreflexive(x);
    BelowRunTail(x, q);
    LessImpliesLessEq(x, p[0].str);
    BelowRunTail(x, p);
    assert forall k :: 0 <= k < |p| ==> Less(x, p[k].str) by {
      forall k | 0 < k < |p| ensures Less(x, p[k].str) {
        assert p[k] == p[1..][k - 1];
      }
    }
    MergeHeadBelow(x, p, q[1..]);
    StrsCons(q[0], MergeOf(p, q[1..]));
    StrictlySortedCons(x, Strs(MergeOf(p, q[1..])));
  }

  /** The step of MergeOfStrictlySorted that meets equal heads. */
  lemma StrictEqualStep(p: seq<Entry>, q: seq<Entry>)
    requires |p| > 0 && |q| > 0 && p[0].str == q[0].str
    requires MergeOf(p, q) == [p[0]] + MergeOf(p[1..], q[1..])
    requires StrictlySorted(Strs(p)) && StrictlySorted(Strs(q))
    requires StrictlySorted(Strs(MergeOf(p[1..], q[1..])))
    ensures StrictlySorted(Strs(MergeOf(p, q)))
  {
    var x := p[0].str;
    LessIrreflexive(x);
    BelowRunTail(x, p);
    BelowRunTail(x, q);
    MergeHeadBelow(x, p[1..], q[1..]);
    StrsCons(p[0], MergeOf(p[1..], q[1..]));
    StrictlySortedCons(x, Strs(MergeOf(p[1..], q[1..])));
  }

  /** A string below every string of two runs is below every string of
      their merge. */
  lemma MergeHeadBelow(x: Str, p: seq<Entry>, q: seq<Entry>)
    requires forall k :: 0 <= k < |p| ==> Less(x, p[k].str)
    requires forall k :: 0 <= k < |q| ==> Less(x, q[k].str)
    ensures forall k :: 0 <= k < |MergeOf(p, q)| ==> Less(x, MergeOf(p, q)[k].str)
  {
    MergeOfMembers(p, q);
    forall k | 0 <= k < |MergeOf(p, q)|
      ensures Less(x, MergeOf(p, q)[k].str)
    {
      assert Strs(MergeOf(p, q))[k] in Strs(MergeOf(p, q));
    }
  }

  /** The merge is as long as both runs together, less one string per
      equal-head step. */
  lemma {:induction false} MergeOfLength(p: seq<Entry>, q: seq<Entry>)
    ensures |MergeOf(p, q)| + DroppedOf(p, q) == |p| + |q|
    decreases |p| + |q|
  {
    if |p| > 0 && |q| > 0 {
      if Less(p[0].str, q[0].str) {
        MergeOfLength(p[1..], q);
      } else if Less(q[0].str, p[0].str) {
        MergeOfLength(p, q[1..]);
      } else {
        EqualHeads(p, q);
        MergeOfLength(p[1..], q[1..]);
      }
    }
  }

  /** Merging runs whose offsets are all 0 yields offsets that are all 0:
      entries are only ever copied. */
  lemma {:induction false} MergeOfZeroOffsets(p: seq<Entry>, q: seq<Entry>)
    requires ZeroOffsets(p) && ZeroOffsets(q)
    ensures ZeroOffsets(MergeOf(p, q))
    decreases |p| + |q|
  {
    if |p| > 0 && |q| > 0 {
      if Less(p[0].str, q[0].str) {
        MergeOfZeroOffsets(p[1..], q);
      } else if Less(q[0].str, p[0].str) {
        MergeOfZeroOffsets(p, q[1..]);
      } else {
        EqualHeads(p, q);
        MergeOfZeroOffsets(p[1..], q[1..]);
      }
    }
  }

  /** stringMergeSort returns the distinct strings of its input, strictly
      ascending, every one paired with offset 0. */
  lemma {:induction false} MergeSortOfSpec(s: seq<Str>)
    ensures StrictlySorted(Strs(MergeSortOf(s)))
    ensures forall x :: x in Strs(MergeSortOf(s)) <==> x in s
    ensures ZeroOffsets(MergeSortOf(s))
    decreases |s|
  {
    if |s| == 1 {
      assert Strs(MergeSortOf(s)) == s;
    } else if |s| > 1 {
      var h := |s| / 2;
      MergeSortOfSpec(s[..h]);
      MergeSortOfSpec(s[h..]);
      MergeOfStrictlySorted(MergeSortOf(s[..h]), MergeSortOf(s[h..]));
      MergeOfMembers(MergeSortOf(s[..h]), MergeSortOf(s[h..]));
      MergeOfZeroOffsets(MergeSortOf(s[..h]), MergeSortOf(s[h..]));
      assert s == s[..h] + s[h..];
    }
  }

  /** A sequence without repeats holds one copy of each of its strings. */
  lemma {:induction false} DistinctCount(s: seq<Str>, x: Str)
    requires Distinct(s)
    ensures multiset(s)[x] == if x in s then 1 else 0
  {
    if |s| > 0 {
      DistinctCount(s[1..], x);
      assert s == [s[0]] + s[1..];
      assert s[0] !in s[1..];
    }
  }

  /** A strictly ascending sequence has no repeats. */
  lemma StrictlySortedIsDistinct(s: seq<Str>)
    requires StrictlySorted(s)
    ensures Distinct(s)
  {
    forall i, j | 0 <= i < j < |s|
      ensures s[i] != s[j]
    {
      LessIrreflexive(s[i]);
    }
  }

  /** A sequence with a repeat has fewer distinct strings than elements. */
  lemma {:induction false} RepeatShrinksSet(s: seq<Str>)
    ensures |set x | x in s| <= |s|
    ensures !Distinct(s) ==> |set x | x in s| < |s|
  {
    if |s| > 0 {
      RepeatShrinksSet(s[1..]);
      assert (set x | x in s) == {s[0]} + (set x | x in s[1..]);
      if !Distinct(s) && Distinct(s[1..]) {
        var i, j :| 0 <= i < j < |s| && s[i] == s[j];
        assert s[0] in s[1..] by {
          assert i == 0;
          assert s[0] == s[1..][j - 1];
        }
      }
    }
  }

  /** On pairwise distinct strings stringMergeSort returns a permutation of
      its input. */
  /** For distinct strings, stringMergeSort sorts: its strings are the
      input, strictly ascending. */
  lemma MergeSortOfSorts(s: seq<Str>)
    requires Distinct(s)
    ensures |MergeSortOf(s)| == |s|
    ensures StrictlySorted(Strs(MergeSortOf(s))) && multiset(Strs(MergeSortOf(s))) == multiset(s)
  {
    MergeSortOfDistinct(s);
    MergeSortOfSpec(s);
  }

  lemma MergeSortOfDistinct(s: seq<Str>)
    requires Distinct(s)
    ensures multiset(Strs(MergeSortOf(s))) == multiset(s)
    ensures |MergeSortOf(s)| == |s|
  {
    var r := Strs(MergeSortOf(s));
    MergeSortOfSpec(s);
    StrictlySortedIsDistinct(r);
    forall x
      ensures multiset(r)[x] == multiset(s)[x]
    {
      DistinctCount(r, x);
      DistinctCount(s, x);
    }
    assert |r| == |multiset(r)|;
  }

  /** With a repeated string stringMergeSort returns fewer entries than its
      input has, so sort's copy loop reads past the end of the result. */
  lemma MergeSortOfRepeat(s: seq<Str>)
    requires !Distinct(s)
    ensures |MergeSortOf(s)| < |s|
  {
    var r := Strs(MergeSortOf(s));
    MergeSortOfSpec(s);
    StrictlySortedDistinct(r);
    assert (set x | x in r) == (set x | x in s);
    RepeatShrinksSet(s);
  }

  // ---------------------------------------------------------------------------
  // One step of stringMerge's first loop, on the runs still to merge

  lemma Regroup(r: seq<Entry>, x: Entry, m: seq<Entry>)
    ensures r + ([x] + m) == (r + [x]) + m
  {
  }

  lemma StepLeft(p: seq<Entry>, q: seq<Entry>, i: nat, j: nat)
    requires i < |p| && j < |q| && Less(p[i].str, q[j].str)
    ensures MergeOf(p[i..], q[j..]) == [p[i]] + MergeOf(p[i + 1..], q[j..])
    ensures MergeCostOf(p[i..], q[j..]) == Min(|p[i].str|, |q[j].str|) + MergeCostOf(p[i + 1..], q[j..])
  {
    assert p[i..][0] == p[i] && p[i..][1..] == p[i + 1..];
    assert q[j..][0] == q[j];
  }

  lemma StepRight(p: seq<Entry>, q: seq<Entry>, i: nat, j: nat)
    requires i < |p| && j < |q| && Less(q[j].str, p[i].str)
    ensures MergeOf(p[i..], q[j..]) == [q[j]] + MergeOf(p[i..], q[j + 1..])
    ensures MergeCostOf(p[i..], q[j..]) == Min(|p[i].str|, |q[j].str|) + MergeCostOf(p[i..], q[j + 1..])
  {
    assert p[i..][0] == p[i];
    assert q[j..][0] == q[j] && q[j..][1..] == q[j + 1..];
    LessAsymmetric(q[j].str, p[i].str);
  }

  lemma StepEqual(p: seq<Entry>, q: seq<Entry>, i: nat, j: nat)
    requires i < |p| && j < |q| && !Less(p[i].str, q[j].str) && !Less(q[j].str, p[i].str)
    ensures p[i].str == q[j].str
    ensures MergeOf(p[i..], q[j..]) == [p[i]] + MergeOf(p[i + 1..], q[j + 1..])
    ensures MergeCostOf(p[i..], q[j..]) == LcpCost(p[i].str, q[j].str, Max(p[i].offset, q[j].offset)) + MergeCostOf(p[i + 1..], q[j + 1..])
  {
    assert p[i..][0] == p[i] && p[i..][1..] == p[i + 1..];
    assert q[j..][0] == q[j] && q[j..][1..] == q[j + 1..];
    EqualHeads(p[i..], q[j..]);
  }

  // ---------------------------------------------------------------------------
  // The class

  class StringMergeSort {
    /** The static compareCount of a1m.cpp. */
    var compareCount: int

    constructor()
      ensures compareCount == 0
    {
      compareCount := 0;
    }

    /** sort(array): resets the counter, sorts the pairs and copies their
        strings back. The copy reads array.size() entries of the result, so
        the strings must be pairwise distinct. */
    method Sort(a: array<Str>)
      requires Distinct(a[..])
      modifies this, a
      ensures StrictlySorted(a[..]) && multiset(a[..]) == multiset(old(a[..]))
      ensures compareCount == MergeSortCostOf(old(a[..]))
    {
      compareCount := 0;
      ghost var s := a[..];
      var sortedPairs := StringMergeSortRec(a[..]);
      MergeSortOfSorts(s);
      CopyStrings(a, sortedPairs);
    }

    /** The copy loop of sort: array[i] = sortedPairs[i].first. */
    static method CopyStrings(a: array<Str>, pairs: seq<Entry>)
      requires |pairs| == a.Length
      modifies a
      ensures a[..] == Strs(pairs)
    {
      for i := 0 to a.Length
        invariant forall k :: 0 <= k < i ==> a[k] == pairs[k].str
      {
        a[i] := pairs[i].str;
      }
    }

    /** lcpCompare(a, b, index), one counted position per loop pass. */
    method LcpCompare(a: Str, b: Str, index: nat) returns (lcp: nat)
      modifies this
      ensures lcp == LcpFrom(a, b, index)
      ensures compareCount == old(compareCount) + LcpCost(a, b, index)
    {
      var n := Min(|a|, |b|);
      var i := index;
      while i < n
        invariant index <= i || n <= index
        invariant i < n ==> LcpFrom(a, b, i) == LcpFrom(a, b, index)
        invariant compareCount == old(compareCount) + (if i < n then i - index else if index < n then n - index else 0)
        invariant i >= n ==> LcpFrom(a, b, index) == n
      {
        compareCount := compareCount + 1;
        if a[i] != b[i] {
          return i;
        }
        i := i + 1;
      }
      return n;
    }

    /** stringMerge(P, Q): the loop over both heads, then the two loops
        that copy what is left of P and of Q. */
    method StringMerge(p: seq<Entry>, q: seq<Entry>) returns (r: seq<Entry>)
      modifies this
      ensures r == MergeOf(p, q)
      ensures compareCount == old(compareCount) + MergeCostOf(p, q)
    {
      var i, j;
      r, i, j := MergeHeads(p, q);
      if j == |q| {
        assert MergeOf(p[i..], q[j..]) == p[i..];
      } else {
        assert MergeOf(p[i..], q[j..]) == q[j..];
      }
      r := AppendRest(r, p, i);
      r := AppendRest(r, q, j);
      assert p[i..] == [] || q[j..] == [];
    }

    /** One of the loops of stringMerge that push what is left of a run:
        while (i < P.size()) R.push_back(P[i++]). */
    static method AppendRest(r: seq<Entry>, p: seq<Entry>, i: nat) returns (r': seq<Entry>)
      requires i <= |p|
      ensures r' == r + p[i..]
    {
      r' := r;
      var k := i;
      while k < |p|
        invariant i <= k <= |p|
        invariant r' == r + p[i..k]
      {
        assert p[i..k + 1] == p[i..k] + [p[k]];
        r' := r' + [p[k]];
        k := k + 1;
      }
      assert p[i..k] == p[i..];
    }

    /** The first loop of stringMerge, while both runs have a head. */
    method MergeHeads(p: seq<Entry>, q: seq<Entry>) returns (r: seq<Entry>, i: nat, j: nat)
      modifies this
      ensures i <= |p| && j <= |q| && (i == |p| || j == |q|)
      ensures MergeOf(p, q) == r + MergeOf(p[i..], q[j..])
      ensures compareCount + MergeCostOf(p[i..], q[j..]) == old(compareCount) + MergeCostOf(p, q)
      ensures MergeCostOf(p[i..], q[j..]) == 0
    {
      r := [];
      i, j := 0, 0;
      while i < |p| && j < |q|
        invariant i <= |p| && j <= |q|
        invariant MergeOf(p, q) == r + MergeOf(p[i..], q[j..])
        invariant compareCount + MergeCostOf(p[i..], q[j..]) == old(compareCount) + MergeCostOf(p, q)
        decreases |p| + |q| - i - j
      {
        if Less(p[i].str, q[j].str) {
          StepLeft(p, q, i, j);
          Regroup(r, p[i], MergeOf(p[i + 1..], q[j..]));
          compareCount := compareCount + Min(|p[i].str|, |q[j].str|);
          r := r + [p[i]];
          i := i + 1;
        } else if Less(q[j].str, p[i].str) {
          StepRight(p, q, i, j);
          Regroup(r, q[j], MergeOf(p[i..], q[j + 1..]));
          compareCount := compareCount + Min(|p[i].str|, |q[j].str|);
          r := r + [q[j]];
          j := j + 1;
        } else {
          StepEqual(p, q, i, j);
          Regroup(r, p[i], MergeOf(p[i + 1..], q[j + 1..]));
          var lcp := LcpCompare(p[i].str, q[j].str, Max(p[i].offset, q[j].offset));
          var n1, n2 := |p[i].str|, |q[j].str|;
          // Equal strings differ at no position, so the branch of a1m.cpp
          // lines 43-50 that splits at lcp is never taken (LcpOfEqual).
          assert !(lcp < n1 && lcp < n2);
          r := r + [p[i]];
          i := i + 1;
          j := j + 1;
        }
      }
    }

    /** stringMergeSort(strings). */
    method StringMergeSortRec(strings: seq<Str>) returns (r: seq<Entry>)
      modifies this
      ensures r == MergeSortOf(strings)
      ensures compareCount == old(compareCount) + MergeSortCostOf(strings)
      decreases |strings|
    {
      if |strings| <= 1 {
        if |strings| > 0 {
          return [Entry(strings[0], 0)];
        }
        return [];
      }
      var mid := |strings| / 2;
      var left := strings[..mid];
      var right := strings[mid..];
      var p := StringMergeSortRec(left);
      var q := StringMergeSortRec(right);
      r := StringMerge(p, q);
    }
  }
}
