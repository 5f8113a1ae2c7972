/** Cutting masked ranges out of an integer range (MinerU/mineru/utils/ocr_utils.py). */
module Intervals {
  import opened Sorting

  /** The integers from lo to hi, both included; none when hi < lo. */
  datatype Interval = Interval(lo: int, hi: int)

  predicate Has(interval: Interval, x: int) {
    interval.lo <= x <= interval.hi
  }

  ghost predicate InSome(intervals: seq<Interval>, x: int) {
    exists k :: 0 <= k < |intervals| && Has(intervals[k], x)
  }

  ghost predicate SortedByStart(intervals: seq<Interval>) {
    forall i, k | 0 <= i < k < |intervals| :: intervals[i].lo <= intervals[k].lo
  }

  /** Each interval ends before the next one starts. */
  ghost predicate Apart(intervals: seq<Interval>) {
    forall i, k | 0 <= i < k < |intervals| :: intervals[i].hi < intervals[k].lo
  }

  ghost predicate NonEmpty(intervals: seq<Interval>) {
    forall k | 0 <= k < |intervals| :: intervals[k].lo <= intervals[k].hi
  }

  lemma SameMembers(a: seq<Interval>, b: seq<Interval>, x: int)
    requires forall interval :: interval in a <==> interval in b
    ensures InSome(a, x) <==> InSome(b, x)
  {
    if InSome(a, x) {
      var k :| 0 <= k < |a| && Has(a[k], x);
      assert a[k] in b;
    }
    if InSome(b, x) {
      var k :| 0 <= k < |b| && Has(b[k], x);
      assert b[k] in a;
    }
  }

  lemma InSomeAppend(a: seq<Interval>, b: Interval, x: int)
    ensures InSome(a + [b], x) <==> InSome(a, x) || Has(b, x)
  {
    var all := a + [b];
    if InSome(a, x) {
      var k :| 0 <= k < |a| && Has(a[k], x);
      assert Has(all[k], x);
    }
    assert all[|a|] == b;
  }

  ghost predicate Gaps(intervals: seq<Interval>) {
    forall k | 0 <= k < |intervals| - 1 :: intervals[k].hi < intervals[k + 1].lo
  }

  lemma {:induction false} GapsApart(intervals: seq<Interval>, i: nat, k: nat)
    requires Gaps(intervals) && NonEmpty(intervals) && i < k < |intervals|
    ensures intervals[i].hi < intervals[k].lo
    decreases k
  {
    if i + 1 < k {
      GapsApart(intervals, i, k - 1);
    }
    assert intervals[k - 1].hi < intervals[k - 1 + 1].lo;
  }

  /** The interval goes into the last one collected if it starts no later than that one ends. */
  function MergeOne(merged: seq<Interval>, interval: Interval): seq<Interval> {
    if merged == [] || merged[|merged| - 1].hi < interval.lo then merged + [interval]
    else
      var last := merged[|merged| - 1];
      merged[..|merged| - 1] + [Interval(last.lo, if last.hi > interval.hi then last.hi else interval.hi)]
  }

  /** `merged` has the points of `done`, in separate intervals that start no later than the last of `done`. */
  ghost predicate MergedFrom(done: seq<Interval>, merged: seq<Interval>) {
    && (forall x :: InSome(merged, x) <==> InSome(done, x))
    && SortedByStart(merged) && Gaps(merged)
    && (NonEmpty(done) ==> NonEmpty(merged))
    && (done == [] <==> merged == [])
    && (done != [] ==> forall k | 0 <= k < |merged| :: merged[k].lo <= done[|done| - 1].lo)
  }

  lemma MergeOnePoints(merged: seq<Interval>, interval: Interval, x: int)
    requires merged != [] ==> merged[|merged| - 1].lo <= interval.lo
    ensures InSome(MergeOne(merged, interval), x) <==> InSome(merged, x) || Has(interval, x)
  {
    if merged == [] || merged[|merged| - 1].hi < interval.lo {
      InSomeAppend(merged, interval, x);
    } else {
      var init, last := merged[..|merged| - 1], merged[|merged| - 1];
      assert merged == init + [last];
      InSomeAppend(init, last, x);
      InSomeAppend(init, Interval(last.lo, if last.hi > interval.hi then last.hi else interval.hi), x);
    }
  }

  lemma MergeOneShape(merged: seq<Interval>, interval: Interval)
    requires SortedByStart(merged) && Gaps(merged)
    requires forall k | 0 <= k < |merged| :: merged[k].lo <= interval.lo
    ensures var more := MergeOne(merged, interval);
      && SortedByStart(more) && Gaps(more) && more != []
      && (forall k | 0 <= k < |more| :: more[k].lo <= interval.lo)
      && (NonEmpty(merged) && interval.lo <= interval.hi ==> NonEmpty(more))
  {
  }

  lemma MergeOneStep(done: seq<Interval>, merged: seq<Interval>, interval: Interval)
    requires MergedFrom(done, merged) && (done != [] ==> done[|done| - 1].lo <= interval.lo)
    ensures MergedFrom(done + [interval], MergeOne(merged, interval))
  {
    forall x
      ensures InSome(MergeOne(merged, interval), x) <==> InSome(done + [interval], x)
    {
      MergeOnePoints(merged, interval, x);
      InSomeAppend(done, interval, x);
    }
    assert done != [] ==> done[|done| - 1].lo <= interval.lo;
    MergeOneShape(merged, interval);
    if NonEmpty(done + [interval]) {
      assert (done + [interval])[|done|] == interval;
      assert forall k | 0 <= k < |done| :: (done + [interval])[k] == done[k];
    }
  }

  lemma MergedApart(done: seq<Interval>, merged: seq<Interval>)
    requires MergedFrom(done, merged) && NonEmpty(done)
    ensures NonEmpty(merged) && Apart(merged)
  {
    forall i, k | 0 <= i < k < |merged|
      ensures merged[i].hi < merged[k].lo
    {
      GapsApart(merged, i, k);
    }
  }

  lemma NonEmptyMembers(a: seq<Interval>, b: seq<Interval>)
    requires NonEmpty(a) && forall interval :: interval in b ==> interval in a
    ensures NonEmpty(b)
  {
    assert forall k | 0 <= k < |b| :: b[k] in b;
  }

  /** Sorts the intervals by their start and merges them one by one. */
  method MergeIntervals(intervals: seq<Interval>) returns (merged: seq<Interval>)
    ensures forall x :: InSome(merged, x) <==> InSome(intervals, x)
    ensures SortedByStart(merged) && Gaps(merged)
    ensures NonEmpty(intervals) ==> NonEmpty(merged) && Apart(merged)
  {
    var sorted := SortByStart(intervals);
    merged := MergeSorted(sorted);
    forall x
      ensures InSome(merged, x) <==> InSome(intervals, x)
    {
      SameMembers(sorted, intervals, x);
    }
    if NonEmpty(intervals) {
      NonEmptyMembers(intervals, sorted);
      MergedApart(sorted, merged);
    }
  }

  method SortByStart(intervals: seq<Interval>) returns (sorted: seq<Interval>)
    ensures SortedByStart(sorted) && forall interval :: interval in sorted <==> interval in intervals
  {
    var key := (i: Interval) => i.lo as real;
    sorted := Sort(key, intervals);
    SortIsRight(key, intervals);
    SortMembers(key, intervals);
    forall i, k | 0 <= i < k < |sorted|
      ensures sorted[i].lo <= sorted[k].lo
    {
      assert key(sorted[i]) <= key(sorted[k]);
    }
  }

  method Collect(merged: seq<Interval>, interval: Interval) returns (more: seq<Interval>)
    ensures more == MergeOne(merged, interval)
  {
    if merged == [] || merged[|merged| - 1].hi < interval.lo {
      more := merged + [interval];
    } else {
      var last := merged[|merged| - 1];
      more := merged[|merged| - 1 := Interval(last.lo, if last.hi > interval.hi then last.hi else interval.hi)];
    }
  }

  method MergeSorted(sorted: seq<Interval>) returns (merged: seq<Interval>)
    requires SortedByStart(sorted)
    ensures MergedFrom(sorted, merged)
  {
    merged := [];
    for n := 0 to |sorted|
      invariant MergedFrom(sorted[..n], merged)
    {
      assert sorted[..n + 1] == sorted[..n] + [sorted[n]];
      MergeOneStep(sorted[..n], merged, sorted[n]);
      merged := Collect(merged, sorted[n]);
    }
    assert sorted[..|sorted|] == sorted;
  }

  // ----- removing masks

  /** What has been cut after some masks: a point of the original is free of them exactly when it was put out
      or lies in what remains from `start` on; what was put out is free of all masks. */
  ghost predicate CutBy(original: Interval, done: seq<Interval>, all: seq<Interval>, result: seq<Interval>,
                        start: int) {
    && original.lo <= start
    && (forall x | Has(original, x) :: !InSome(done, x) <==> InSome(result, x) || start <= x)
    && (forall x | InSome(result, x) :: Has(original, x) && !InSome(all, x))
    && NonEmpty(result)
  }

  /** The part of the original in front of a mask is free of all masks. */
  lemma FrontIsFree(original: Interval, all: seq<Interval>, n: nat, result: seq<Interval>, start: int, x: int)
    requires SortedByStart(all) && n < |all| && CutBy(original, all[..n], all, result, start)
    requires Has(original, x) && start <= x < all[n].lo
    ensures !InSome(all, x)
  {
    forall k | 0 <= k < |all|
      ensures !Has(all[k], x)
    {
      if k < n {
        assert all[..n][k] == all[k];
      }
    }
  }

  /** One mask: what it does to the result and to the start of the remainder. */
  function CutOne(original: Interval, mask: Interval, result: seq<Interval>, start: int): (seq<Interval>, int) {
    if mask.lo > original.hi || mask.hi < start then (result, start)
    else
      (if start < mask.lo then result + [Interval(start, mask.lo - 1)] else result,
       if mask.hi + 1 > start then mask.hi + 1 else start)
  }

  lemma CutOneStep(original: Interval, all: seq<Interval>, n: nat, result: seq<Interval>, start: int)
    requires SortedByStart(all) && n < |all| && CutBy(original, all[..n], all, result, start)
    ensures var (result', start') := CutOne(original, all[n], result, start);
      CutBy(original, all[..n + 1], all, result', start')
  {
    var mask := all[n];
    var (result', start') := CutOne(original, mask, result, start);
    assert all[..n + 1] == all[..n] + [mask];
    var front := Interval(start, mask.lo - 1);
    forall x
      ensures InSome(all[..n + 1], x) <==> InSome(all[..n], x) || Has(mask, x)
      ensures InSome(result + [front], x) <==> InSome(result, x) || Has(front, x)
    {
      InSomeAppend(all[..n], mask, x);
      InSomeAppend(result, front, x);
    }
    forall x | Has(original, x) && Has(front, x)
      ensures !InSome(all, x)
    {
      FrontIsFree(original, all, n, result, start, x);
    }
  }

  /** With separate, non-empty masks the pieces come out in order: each ends before the remainder begins. */
  ghost predicate CutInOrder(result: seq<Interval>, start: int) {
    Apart(result) && forall k | 0 <= k < |result| :: result[k].hi < start
  }

  /** The points of the original outside all masks, as non-empty intervals; in order and disjoint when the masks
      are well formed. */
  method RemoveIntervals(original: Interval, masks: seq<Interval>) returns (result: seq<Interval>)
    ensures forall x :: InSome(result, x) <==> Has(original, x) && !InSome(masks, x)
    ensures NonEmpty(result)
    ensures NonEmpty(masks) ==> Apart(result)
  {
    var merged := MergeIntervals(masks);
    result := [];
    var start := original.lo;
    for n := 0 to |merged|
      invariant CutBy(original, merged[..n], merged, result, start)
      invariant NonEmpty(masks) ==> CutInOrder(result, start)
    {
      CutOneStep(original, merged, n, result, start);
      CutKeepsOrder(original, merged[n], result, start);
      result, start := CutMask(original, merged[n], result, start);
    }
    assert merged[..|merged|] == merged;
    CutDone(original, merged, result, start);
    if start <= original.hi {
      result := result + [Interval(start, original.hi)];
    }
  }

  method CutMask(original: Interval, mask: Interval, result0: seq<Interval>, start0: int)
    returns (result: seq<Interval>, start: int)
    ensures (result, start) == CutOne(original, mask, result0, start0)
  {
    result, start := result0, start0;
    if mask.lo > original.hi { return; }
    if mask.hi < start { return; }
    if start < mask.lo {
      result := result + [Interval(start, mask.lo - 1)];
    }
    start := if mask.hi + 1 > start then mask.hi + 1 else start;
  }

  lemma CutKeepsOrder(original: Interval, mask: Interval, result: seq<Interval>, start: int)
    ensures CutInOrder(result, start) && mask.lo <= mask.hi ==>
      var (result', start') := CutOne(original, mask, result, start); CutInOrder(result', start')
  {
  }

  /** The remainder is put out at the end, if there is one. */
  lemma CutDone(original: Interval, all: seq<Interval>, result: seq<Interval>, start: int)
    requires CutBy(original, all, all, result, start)
    ensures var whole := if start <= original.hi then result + [Interval(start, original.hi)] else result;
      && (forall x :: InSome(whole, x) <==> Has(original, x) && !InSome(all, x))
      && NonEmpty(whole) && (CutInOrder(result, start) ==> Apart(whole))
  {
    forall x
      ensures InSome(result + [Interval(start, original.hi)], x) <==> InSome(result, x) || start <= x <= original.hi
    {
      InSomeAppend(result, Interval(start, original.hi), x);
    }
  }
}
