/** Rendering the pages of a document in parallel ranges (MinerU/mineru/utils/pdf_image_tools.py). */
module PageRanges {
  import opened Basics
  import opened Sorting

  /** The images, or the failure of a division by zero threads or of a pool without workers. */
  datatype Outcome<T> = Images(images: seq<T>) | NoWorkers

  /** An absent or negative last page means the last of the document, and none lies behind it. */
  function EndPage(end: Option<int>, pageCount: nat): int {
    var last := if end.Some? && end.value >= 0 then end.value else pageCount - 1;
    if last > pageCount - 1 then pageCount - 1 else last
  }

  /** The images of the pages from `first` to `last`. */
  function Rendered<T>(render: nat -> T, first: nat, last: int): seq<T> {
    seq(if first <= last then last - first + 1 else 0, k requires k >= 0 => render(first + k))
  }

  method LoadImagesCore<T>(render: nat -> T, pageCount: nat, start: nat, end: Option<int>) returns (images: seq<T>)
    ensures images == Rendered(render, start, EndPage(end, pageCount))
  {
    images := [];
    var last := EndPage(end, pageCount);
    var index := start;
    while index < last + 1
      invariant start <= index && (index == start || index <= last + 1)
      invariant images == Rendered(render, start, index - 1)
      decreases last + 1 - index
    {
      images := images + [render(index)];
      index := index + 1;
    }
  }

  /** No more workers than processors, threads asked for, or pages. */
  function Workers(cpus: nat, threads: int, totalPages: int): int {
    Min(Min(if cpus == 0 then 1 else cpus, threads), totalPages)
  }

  // ----- the ranges

  /** The ranges are non-empty and consecutive, from `first` to `last`. */
  ghost predicate Tile(ranges: seq<(nat, nat)>, first: int, last: int) {
    && (forall i | 0 <= i < |ranges| :: ranges[i].0 <= ranges[i].1)
    && (forall i | 0 <= i < |ranges| - 1 :: ranges[i + 1].0 == ranges[i].1 + 1)
    && if ranges == [] then last == first - 1 else ranges[0].0 == first && ranges[|ranges| - 1].1 == last
  }

  lemma PagesFit(workers: nat, perWorker: nat, totalPages: nat)
    requires 1 <= workers <= totalPages && perWorker == totalPages / workers
    ensures 1 <= perWorker && workers * perWorker <= totalPages
  {
    assert totalPages == workers * (totalPages / workers) + totalPages % workers;
  }

  lemma Next(i: nat, k: nat)
    ensures (i + 1) * k == i * k + k
  {
  }

  lemma Bounded(i: nat, n: nat, k: nat)
    requires i <= n
    ensures i * k <= n * k
  {
    assert n * k == i * k + (n - i) * k;
  }

  lemma TileStep(ranges: seq<(nat, nat)>, first: int, rangeStart: nat, rangeEnd: nat)
    requires Tile(ranges, first, rangeStart - 1) && rangeStart <= rangeEnd
    ensures Tile(ranges + [(rangeStart, rangeEnd)], first, rangeEnd)
  {
  }

  /** The first page of range i, and of range `workers` the page behind all full ranges. */
  function PageOf(start: nat, perWorker: nat, i: nat): nat {
    start + i * perWorker
  }

  lemma RangeFits(start: nat, last: nat, workers: nat, perWorker: nat, i: nat)
    requires start <= last && i < workers && 1 <= perWorker && workers * perWorker <= last - start + 1
    ensures PageOf(start, perWorker, i + 1) == PageOf(start, perWorker, i) + perWorker
    ensures PageOf(start, perWorker, i) <= last
    ensures i == 0 ==> PageOf(start, perWorker, i) == start
  {
    Next(i, perWorker);
    Bounded(i + 1, workers, perWorker);
  }

  method SplitPages(start: nat, last: nat, workers: nat) returns (ranges: seq<(nat, nat)>)
    requires start <= last && 1 <= workers <= last - start + 1
    ensures |ranges| == workers && Tile(ranges, start, last)
  {
    var total := last - start + 1;
    var perWorker := if total / workers > 1 then total / workers else 1;
    PagesFit(workers, total / workers, total);
    ranges := [];
    for i := 0 to workers
      invariant |ranges| == i
      invariant i < workers ==> Tile(ranges, start, PageOf(start, perWorker, i) - 1)
      invariant i == workers ==> Tile(ranges, start, last)
    {
      RangeFits(start, last, workers, perWorker, i);
      var rangeStart := PageOf(start, perWorker, i);
      var rangeEnd := if i == workers - 1 then last else PageOf(start, perWorker, i + 1) - 1;
      TileStep(ranges, start, rangeStart, rangeEnd);
      ranges := ranges + [(rangeStart, rangeEnd)];
    }
  }

  // ----- putting the images together

  lemma RenderedSplit<T>(render: nat -> T, first: nat, middle: int, last: int)
    requires first <= middle + 1 <= last + 1
    ensures Rendered(render, first, last) == Rendered(render, first, middle) + Rendered(render, middle + 1, last)
  {
  }

  lemma {:induction false} TileStartsIncrease(ranges: seq<(nat, nat)>, first: int, last: int, i: nat, k: nat)
    requires Tile(ranges, first, last) && i < k < |ranges|
    ensures ranges[i].1 < ranges[k].0
    decreases k
  {
    assert ranges[k - 1 + 1].0 == ranges[k - 1].1 + 1;
    if i + 1 < k {
      TileStartsIncrease(ranges, first, last, i, k - 1);
    }
  }

  lemma TileEnds(ranges: seq<(nat, nat)>, first: int, last: int, i: nat)
    requires Tile(ranges, first, last) && i < |ranges|
    ensures first <= ranges[i].0 && ranges[i].1 <= last
  {
    if i > 0 {
      TileStartsIncrease(ranges, first, last, 0, i);
    }
    if i < |ranges| - 1 {
      TileStartsIncrease(ranges, first, last, i, |ranges| - 1);
    }
  }

  function RangeStart<T>(): ((nat, seq<T>)) -> real {
    (result: (nat, seq<T>)) => result.0 as real
  }

  /** The images of each range, with its first page. */
  function Results<T>(render: nat -> T, ranges: seq<(nat, nat)>): seq<(nat, seq<T>)> {
    seq(|ranges|, i requires 0 <= i < |ranges| => (ranges[i].0, Rendered(render, ranges[i].0, ranges[i].1)))
  }

  method RunWorkers<T>(render: nat -> T, pageCount: nat, ranges: seq<(nat, nat)>, last: int)
    returns (results: seq<(nat, seq<T>)>)
    requires last < pageCount && forall i | 0 <= i < |ranges| :: ranges[i].1 <= last
    ensures results == Results(render, ranges)
  {
    results := [];
    for i := 0 to |ranges|
      invariant |results| == i
      invariant forall k | 0 <= k < i :: results[k] == Results(render, ranges)[k]
    {
      var images := LoadImagesCore(render, pageCount, ranges[i].0, Some(ranges[i].1));
      results := results + [(ranges[i].0, images)];
    }
  }

  /** Renders in parallel ranges: the same images as one sequential pass, unless there are no workers. */
  method LoadImagesFromPdf<T>(render: nat -> T, pageCount: nat, start: nat, end: Option<int>, cpus: nat, threads: int)
    returns (outcome: Outcome<T>)
    ensures threads >= 1 && start <= EndPage(end, pageCount) ==>
      outcome == Images(Rendered(render, start, EndPage(end, pageCount)))
    ensures threads < 1 || start > EndPage(end, pageCount) ==> outcome == NoWorkers
  {
    var last := EndPage(end, pageCount);
    var workers := Workers(cpus, threads, last - start + 1);
    if workers < 1 {
      return NoWorkers;
    }
    var ranges := SplitPages(start, last, workers);
    forall i | 0 <= i < |ranges|
      ensures ranges[i].1 <= last
    {
      TileEnds(ranges, start, last, i);
    }
    var results := RunWorkers(render, pageCount, ranges, last);
    SortedResults(render, ranges, start, last);
    results := Sort(RangeStart<T>(), results);
    var images := Concatenate(render, ranges, start, last, results);
    return Images(images);
  }

  lemma SortedResults<T>(render: nat -> T, ranges: seq<(nat, nat)>, first: int, last: int)
    requires Tile(ranges, first, last)
    ensures Sort(RangeStart<T>(), Results(render, ranges)) == Results(render, ranges)
  {
    forall i, k | 0 <= i < k < |ranges|
      ensures ranges[i].0 <= ranges[k].0
    {
      TileStartsIncrease(ranges, first, last, i, k);
    }
    SortKeepsOrder(RangeStart<T>(), Results(render, ranges));
  }

  method Concatenate<T>(ghost render: nat -> T, ghost ranges: seq<(nat, nat)>, ghost first: nat, ghost last: nat,
                              results: seq<(nat, seq<T>)>) returns (images: seq<T>)
    requires Tile(ranges, first, last) && results == Results(render, ranges) && ranges != []
    ensures images == Rendered(render, first, last)
  {
    images := [];
    for i := 0 to |results|
      invariant i == 0 ==> images == []
      invariant i > 0 ==> images == Rendered(render, first, ranges[i - 1].1)
    {
      ghost var (a, b) := ranges[i];
      TileEnds(ranges, first, last, i);
      if i > 0 {
        assert ranges[i - 1 + 1].0 == ranges[i - 1].1 + 1;
      }
      RenderedSplit(render, first, a as int - 1, b);
      images := images + results[i].1;
    }
  }
}
