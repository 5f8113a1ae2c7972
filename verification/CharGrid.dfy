/** Assigning characters to text spans through a grid of rows (MinerU/mineru/utils/span_pre_proc.py). */
module CharGrid {
  import opened Basics
  import opened Sorting

  /** A character of the page; `idx` is its position in the page's text. */
  datatype Char = Char(symbol: char, box: RealBox, idx: int)

  const HEIGHT_RATIO: real := 0.33

  const LINE_STOP: string :=
    ".!?\U{3002}\U{FF01}\U{FF1F})\U{FF09}\"\U{201D}:\U{FF1A};\U{FF1B}" +
    "]\U{3011}}>\U{300B}\U{3001},\U{FF0C}-\U{2014}\U{2013}"
  const LINE_START: string := "(\U{FF08}\"\U{201C}\U{3010}{\U{300A}<\U{300C}\U{300E}["

  function CenterX(box: RealBox): real {
    (box.x0 + box.x1) / 2.0
  }

  function CenterY(box: RealBox): real {
    (box.y0 + box.y1) / 2.0
  }

  /** The centre of the character is inside the span and not too far from its middle line, vertically. */
  predicate OnLine(c: RealBox, span: RealBox) {
    && span.y0 < CenterY(c) < span.y1
    && AbsReal(CenterY(c) - CenterY(span)) < (span.y1 - span.y0) * HEIGHT_RATIO
  }

  /** Whether the character belongs to the span; stop and start characters may stick out at the end or start. */
  predicate InSpan(c: Char, span: RealBox) {
    var height := span.y1 - span.y0;
    if span.x0 < CenterX(c.box) < span.x1 && OnLine(c.box, span) then true
    else if c.symbol in LINE_STOP then
      span.x1 - height < c.box.x0 < span.x1 && CenterX(c.box) > span.x0 && OnLine(c.box, span)
    else if c.symbol in LINE_START then
      span.x0 < c.box.x1 < span.x0 + height && CenterX(c.box) < span.x1 && OnLine(c.box, span)
    else false
  }

  lemma InSpanOnLine(c: Char, span: RealBox)
    requires InSpan(c, span)
    ensures span.y0 < CenterY(c.box) < span.y1
  {
  }

  /** The middle of the character lies in the band around the middle line of the span. */
  ghost predicate InBand(c: RealBox, span: RealBox) {
    var height := span.y1 - span.y0;
    2.0 * (span.y0 + 0.17 * height) < c.y0 + c.y1 < 2.0 * (span.y0 + 0.83 * height)
  }

  ghost predicate CentreInside(c: Char, span: RealBox) {
    2.0 * span.x0 < c.box.x0 + c.box.x1 < 2.0 * span.x1
  }

  ghost predicate EndsIt(c: Char, span: RealBox) {
    && c.symbol in LINE_STOP && 2.0 * span.x0 < c.box.x0 + c.box.x1
    && 0.0 < span.x1 - c.box.x0 < span.y1 - span.y0
  }

  ghost predicate StartsIt(c: Char, span: RealBox) {
    && c.symbol in LINE_START && c.symbol !in LINE_STOP && c.box.x0 + c.box.x1 < 2.0 * span.x1
    && 0.0 < c.box.x1 - span.x0 < span.y1 - span.y0
  }

  /** A character whose centre is in the span across belongs to it if it is in the band; a character that ends a line
      may begin within one height of the right edge, and one that starts a line may end within one height of the left
      edge. The others belong nowhere else. */
  lemma InSpanExactly(c: Char, span: RealBox)
    ensures InSpan(c, span) <==> InBand(c.box, span) && (CentreInside(c, span) || EndsIt(c, span) || StartsIt(c, span))
  {
    assert OnLine(c.box, span) <==> InBand(c.box, span);
  }

  function Mirrored(box: RealBox): RealBox {
    RealBox(-box.x1, box.y0, -box.x0, box.y1)
  }

  /** Starting a line is ending one seen in the mirror. */
  lemma StartMirrorsStop(start: Char, stop: Char, span: RealBox)
    requires start.symbol in LINE_START && start.symbol !in LINE_STOP && stop.symbol in LINE_STOP
    requires stop.box == Mirrored(start.box)
    ensures InSpan(start, span) <==> InSpan(stop, Mirrored(span))
  {
  }

  // ----- rows of the grid

  lemma TruncMonotone(x: real, y: real)
    requires x <= y
    ensures Trunc(x) <= Trunc(y)
  {
  }

  function Row(y: real, size: real): int
    requires size > 0.0
  {
    Trunc(y / size)
  }

  lemma RowMonotone(y: real, z: real, size: real)
    requires size > 0.0 && y <= z
    ensures Row(y, size) <= Row(z, size)
  {
    QuotientMonotone(y, z, size);
    TruncMonotone(y / size, z / size);
  }

  lemma QuotientMonotone(y: real, z: real, size: real)
    requires size > 0.0 && y <= z
    ensures y / size <= z / size
  {
    assert (y / size) * size == y && (z / size) * size == z;
  }

  // ----- the linear scan

  ghost predicate FirstAccepting(c: Char, spans: seq<RealBox>, i: nat) {
    && i < |spans| && InSpan(c, spans[i])
    && forall k | 0 <= k < i :: !InSpan(c, spans[k])
  }

  ghost predicate NoneAccepting(c: Char, spans: seq<RealBox>) {
    forall k | 0 <= k < |spans| :: !InSpan(c, spans[k])
  }

  /** The characters whose first accepting span, in the order of the spans, is span i. */
  ghost function Scanned(chars: seq<Char>, spans: seq<RealBox>, i: nat): seq<Char> {
    if chars == [] then []
    else
      var c := chars[|chars| - 1];
      Scanned(chars[..|chars| - 1], spans, i) + if FirstAccepting(c, spans, i) then [c] else []
  }

  // ----- the grid

  function GridRow(grid: map<int, seq<nat>>, row: int): seq<nat> {
    if row in grid then grid[row] else []
  }

  /** Every row lists, in order, exactly the spans that reach into it. */
  ghost predicate IsGrid(grid: map<int, seq<nat>>, spans: seq<RealBox>, n: nat, size: real)
    requires size > 0.0
  {
    forall row :: ListsSpans(GridRow(grid, row), spans, n, size, row)
  }

  ghost predicate ListsSpans(list: seq<nat>, spans: seq<RealBox>, n: nat, size: real, row: int)
    requires size > 0.0
  {
    && (forall i: nat :: i in list <==>
          i < n && i < |spans| && Row(spans[i].y0, size) <= row <= Row(spans[i].y1, size))
    && (forall a, b | 0 <= a < b < |list| :: list[a] < list[b])
  }

  method BuildGrid(spans: seq<RealBox>, size: real) returns (grid: map<int, seq<nat>>)
    requires size > 0.0
    ensures IsGrid(grid, spans, |spans|, size)
  {
    grid := map[];
    for i := 0 to |spans|
      invariant IsGrid(grid, spans, i, size)
    {
      grid := AddSpan(grid, spans, i, size);
    }
  }

  /** Row `row` after span i has been put into the rows from `start` to `end`. */
  function WithSpan(before: map<int, seq<nat>>, i: nat, start: int, end: int, row: int): seq<nat> {
    if start <= row < end then GridRow(before, row) + [i] else GridRow(before, row)
  }

  /** Puts span i behind the spans listed already, in every row that it reaches. */
  method AddSpan(before: map<int, seq<nat>>, spans: seq<RealBox>, i: nat, size: real) returns (grid: map<int, seq<nat>>)
    requires size > 0.0 && i < |spans| && IsGrid(before, spans, i, size)
    ensures IsGrid(grid, spans, i + 1, size)
  {
    var start, end := Row(spans[i].y0, size), Row(spans[i].y1, size);
    grid := PutIntoRows(before, i, start, end);
    forall r
      ensures ListsSpans(GridRow(grid, r), spans, i + 1, size, r)
    {
      assert GridRow(grid, r) == WithSpan(before, i, start, end + 1, r);
      RowGrows(GridRow(before, r), spans, i, size, r);
    }
  }

  method PutIntoRows(before: map<int, seq<nat>>, i: nat, start: int, end: int) returns (grid: map<int, seq<nat>>)
    ensures forall r :: GridRow(grid, r) == WithSpan(before, i, start, end + 1, r)
  {
    grid := before;
    var row := start;
    while row < end + 1
      invariant start <= row && (row == start || row <= end + 1)
      invariant forall r :: GridRow(grid, r) == WithSpan(before, i, start, row, r)
      decreases end + 1 - row
    {
      ghost var previous := grid;
      assert GridRow(grid, row) == WithSpan(before, i, start, row, row);
      grid := grid[row := GridRow(grid, row) + [i]];
      forall r
        ensures GridRow(grid, r) == WithSpan(before, i, start, row + 1, r)
      {
        assert GridRow(previous, r) == WithSpan(before, i, start, row, r);
      }
      row := row + 1;
    }
  }

  lemma RowGrows(list: seq<nat>, spans: seq<RealBox>, i: nat, size: real, row: int)
    requires size > 0.0 && i < |spans| && ListsSpans(list, spans, i, size, row)
    ensures ListsSpans(if Row(spans[i].y0, size) <= row <= Row(spans[i].y1, size) then list + [i] else list,
                       spans, i + 1, size, row)
  {
    forall a | 0 <= a < |list|
      ensures list[a] < i
    {
      assert list[a] in list;
    }
  }

  /** Looking only at the row of the character's centre loses no accepting span. */
  lemma RowSuffices(c: Char, spans: seq<RealBox>, size: real, list: seq<nat>, i: nat)
    requires size > 0.0 && ListsSpans(list, spans, |spans|, size, Row(CenterY(c.box), size))
    requires i < |spans| && InSpan(c, spans[i])
    ensures i in list
  {
    InSpanOnLine(c, spans[i]);
    RowMonotone(spans[i].y0, CenterY(c.box), size);
    RowMonotone(CenterY(c.box), spans[i].y1, size);
  }

  /** The first accepting candidate of the character's row, if any. */
  method FindSpan(c: Char, spans: seq<RealBox>, grid: map<int, seq<nat>>, size: real) returns (found: bool, i: nat)
    requires size > 0.0 && IsGrid(grid, spans, |spans|, size)
    ensures found ==> FirstAccepting(c, spans, i)
    ensures !found ==> NoneAccepting(c, spans)
  {
    var row := Row(CenterY(c.box), size);
    var candidates := GridRow(grid, row);
    assert ListsSpans(candidates, spans, |spans|, size, row);
    forall k: nat | k < |spans| && InSpan(c, spans[k])
      ensures k in candidates
    {
      RowSuffices(c, spans, size, candidates, k);
    }
    for n := 0 to |candidates|
      invariant forall m | 0 <= m < n :: candidates[m] < |spans| && !InSpan(c, spans[candidates[m]])
    {
      assert candidates[n] in candidates;
      if InSpan(c, spans[candidates[n]]) {
        return true, candidates[n];
      }
    }
    return false, 0;
  }

  /** Distributes the characters over the spans, sorted by their upper edge: exactly as scanning all of them. */
  method FillCharInSpans(unsorted: seq<RealBox>, allChars: seq<Char>, medianHeight: real)
    returns (spans: seq<RealBox>, chars: seq<seq<Char>>)
    requires medianHeight > 0.0
    ensures spans == Sort((box: RealBox) => box.y0, unsorted)
    ensures |chars| == |spans|
    ensures forall i | 0 <= i < |spans| :: chars[i] == Scanned(allChars, spans, i)
  {
    spans := Sort((box: RealBox) => box.y0, unsorted);
    var grid := BuildGrid(spans, medianHeight);
    chars := seq(|spans|, _ => []);
    for n := 0 to |allChars|
      invariant |chars| == |spans|
      invariant forall i | 0 <= i < |spans| :: chars[i] == Scanned(allChars[..n], spans, i)
    {
      var c := allChars[n];
      assert allChars[..n + 1][..n] == allChars[..n];
      var found, k := FindSpan(c, spans, grid, medianHeight);
      if found {
        chars := chars[k := chars[k] + [c]];
      }
    }
    assert allChars[..|allChars|] == allChars;
  }
}
