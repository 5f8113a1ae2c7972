/** What slot allocation promises: the two column counters agree, and printed tilings are read back in place. */
module HtmlRoundTrip {
  import opened Basics
  import opened Otsl
  import opened OtslRoundTrip
  import opened HtmlTables

  // ----- the two column counters

  /** Every cell is at least one row high and no cell has a negative width. */
  ghost predicate ProperSpans(rows: seq<HtmlRow>) {
    forall row, cell | row in rows && cell in row :: RowSpan(cell) >= 1 && ColSpan(cell) >= 0
  }

  /** The pointer stands behind a taken slot of row r, and every taken slot lies behind the furthest pointer. */
  ghost predicate Packed(s: RowState, r: int, furthest0: int) {
    && s.col >= 0 && (s.col == 0 || (r, s.col - 1) in s.occupied)
    && 0 <= furthest0 <= s.furthest
    && (s.furthest == furthest0 || (r, s.furthest - 1) in s.occupied)
    && (forall i, j | (i, j) in s.occupied :: 0 <= j < s.furthest)
  }

  lemma PlaceCellPacked(s: RowState, r: int, cell: HtmlCell, furthest0: int)
    requires Packed(s, r, furthest0) && RowSpan(cell) >= 1 && ColSpan(cell) >= 0
    ensures Packed(PlaceCell(s, r, cell), r, furthest0)
  {
    var c := FirstFree(s.occupied, r, s.col);
    var next := c + ColSpan(cell);
    assert c > s.col ==> (r, c - 1) in s.occupied;
    assert ColSpan(cell) > 0 ==> (r, next - 1) in Area(r, c, RowSpan(cell), ColSpan(cell));
  }

  lemma {:induction false} PlaceRowPacked(s: RowState, r: int, row: HtmlRow, furthest0: int)
    requires Packed(s, r, furthest0) && forall cell | cell in row :: RowSpan(cell) >= 1 && ColSpan(cell) >= 0
    ensures Packed(PlaceRow(s, r, row), r, furthest0)
  {
    if row == [] {
    } else {
      var init := row[..|row| - 1];
      assert row[|row| - 1] in row && forall cell | cell in init :: cell in row;
      PlaceRowPacked(s, r, init, furthest0);
      PlaceCellPacked(PlaceRow(s, r, init), r, row[|row| - 1], furthest0);
    }
  }

  lemma {:induction false} RowsPacked(rows: seq<HtmlRow>)
    requires ProperSpans(rows)
    ensures forall i, j | (i, j) in PlaceRows(rows).occupied :: 0 <= j < PlaceRows(rows).furthest
    ensures rows != [] ==> PlaceRows(rows[..|rows| - 1]).furthest <= PlaceRows(rows).furthest
    ensures rows != [] && PlaceRows(rows[..|rows| - 1]).furthest < PlaceRows(rows).furthest ==>
      (|rows| - 1, PlaceRows(rows).furthest - 1) in PlaceRows(rows).occupied
    ensures PlaceRows(rows).furthest >= 0
  {
    if rows == [] {
    } else {
      var init := rows[..|rows| - 1];
      assert rows[|rows| - 1] in rows && forall row | row in init :: row in rows;
      RowsPacked(init);
      var before := PlaceRows(init);
      PlaceRowPacked(RowState(before.occupied, 0, before.furthest, []), |rows| - 1, rows[|rows| - 1], before.furthest);
    }
  }

  lemma {:induction false} FurthestGrows(rows: seq<HtmlRow>, k: nat)
    requires ProperSpans(rows) && k <= |rows|
    ensures ProperSpans(rows[..k]) && PlaceRows(rows[..k]).furthest <= PlaceRows(rows).furthest
    decreases |rows|
  {
    if k < |rows| {
      RowsPacked(rows);
      FurthestGrows(rows[..|rows| - 1], k);
      assert rows[..|rows| - 1][..k] == rows[..k];
    } else {
      assert rows[..k] == rows;
    }
  }

  lemma {:induction false} SomeRowIsWidest(rows: seq<HtmlRow>) returns (r: nat)
    requires ProperSpans(rows) && rows != []
    ensures r < |rows| && Effective(rows, r, PlaceRows(rows).furthest)
  {
    var init := rows[..|rows| - 1];
    RowsPacked(rows);
    assert rows[..|rows|] == rows;
    if PlaceRows(init).furthest < PlaceRows(rows).furthest || init == [] {
      r := |rows| - 1;
    } else {
      FurthestGrows(rows, |init|);
      r := SomeRowIsWidest(init);
      assert init[..r + 1] == rows[..r + 1];
    }
  }

  /** The pointer-based count is the maximum of the effective columns over the rows. */
  lemma ColumnCountersAgree(rows: seq<HtmlRow>)
    requires ProperSpans(rows) && rows != []
    ensures forall r, n | 0 <= r < |rows| && Effective(rows, r, n) :: n <= PlaceRows(rows).furthest
    ensures exists r: nat :: r < |rows| && Effective(rows, r, PlaceRows(rows).furthest)
  {
    forall r, n | 0 <= r < |rows| && Effective(rows, r, n)
      ensures n <= PlaceRows(rows).furthest
    {
      FurthestGrows(rows, r + 1);
      RowsPacked(rows[..r + 1]);
    }
    var r := SomeRowIsWidest(rows);
  }

  /** A rowspan of zero makes them differ: the pointer passes a cell that takes no slot. */
  lemma CountersDifferOnZeroRowspan(text: string)
    ensures var rows := [[HtmlCell(text, Some(0), None)]];
      PlaceRows(rows).furthest == 1 && Effective(rows, 0, 0)
  {
    var cell := HtmlCell(text, Some(0), None);
    var start := RowState({}, 0, 0, []);
    assert [[cell]][..0] == [] && [[cell]][..1] == [[cell]];
    assert [cell][..0] == [];
    assert PlaceRow(start, 0, [cell]) == PlaceCell(PlaceRow(start, 0, []), 0, cell);
    assert Area(0, 0, 0, 1) == {};
  }

  // ----- the grid of the cells read from a tiling

  lemma {:induction false} CornerIsListed(t: seq<seq<TableCell>>, r: nat, c: nat, i: nat, j: nat)
    requires i < |t| && j < |t[i]| && StartsAt(t[i][j], i, j)
    requires r < i || (r == i && c <= j)
    ensures t[i][j] in CornerCells(t, r, c)
    decreases |t| - r, if r < |t| then |t[r]| - c else 0
  {
    if c >= |t[r]| {
      CornerIsListed(t, r + 1, 0, i, j);
    } else if (r, c) != (i, j) {
      CornerIsListed(t, r, c + 1, i, j);
    }
  }

  lemma {:induction false} ListedIsCorner(t: seq<seq<TableCell>>, r: nat, c: nat, cell: TableCell)
    returns (i: nat, j: nat)
    requires cell in CornerCells(t, r, c)
    ensures i < |t| && j < |t[i]| && t[i][j] == cell && StartsAt(cell, i, j)
    decreases |t| - r, if r < |t| then |t[r]| - c else 0
  {
    if c >= |t[r]| {
      i, j := ListedIsCorner(t, r + 1, 0, cell);
    } else if StartsAt(t[r][c], r, c) && cell == t[r][c] {
      i, j := r, c;
    } else {
      i, j := ListedIsCorner(t, r, c + 1, cell);
    }
  }

  lemma {:induction false} OnlyOwner(cells: seq<TableCell>, r: nat, c: nat, cell: TableCell)
    requires cell in cells && Covers(cell, r, c)
    requires forall other | other in cells && Covers(other, r, c) :: other == cell
    ensures SlotOwner(cells, r, c) == cell
  {
    var init, last := cells[..|cells| - 1], cells[|cells| - 1];
    assert cells == init + [last];
    if !Covers(last, r, c) {
      OnlyOwner(init, r, c, cell);
    }
  }

  /** Writing the rectangles of a tiling into an empty grid gives the tiling back. */
  lemma GridOfCorners(t: seq<seq<TableCell>>, height: nat, width: nat)
    requires Tiling(t, height, width)
    ensures OwnerGrid(CornerCells(t, 0, 0), height, width) == t
    ensures CornerCells(t, 0, 0) != []
  {
    var cells := CornerCells(t, 0, 0);
    forall r: nat, c: nat | r < height && c < width
      ensures SlotOwner(cells, r, c) == t[r][c]
      ensures cells != []
    {
      SlotIsOwned(t, height, width, r, c);
    }
    forall r | 0 <= r < height
      ensures OwnerGrid(cells, height, width)[r] == t[r]
    {
    }
    SlotIsOwned(t, height, width, 0, 0);
  }

  lemma SlotIsOwned(t: seq<seq<TableCell>>, height: nat, width: nat, r: nat, c: nat)
    requires Tiling(t, height, width) && r < height && c < width
    ensures SlotOwner(CornerCells(t, 0, 0), r, c) == t[r][c] && CornerCells(t, 0, 0) != []
  {
    var cell := t[r][c];
    var i, j := cell.startRow, cell.startCol;
    assert Covers(t[r][c], i, j);
    CornerIsListed(t, 0, 0, i, j);
    forall other | other in CornerCells(t, 0, 0) && Covers(other, r, c)
      ensures other == cell
    {
      var k, l := ListedIsCorner(t, 0, 0, other);
      assert Covers(t[k][l], r, c);
    }
    OnlyOwner(CornerCells(t, 0, 0), r, c, cell);
  }

  ghost predicate Covered(cells: seq<TableCell>, r: int, c: int) {
    exists cell :: cell in cells && Covers(cell, r, c)
  }

  /** The same notion for a list of rectangles: none leaves the grid and every slot lies in exactly one. */
  ghost predicate TilesGrid(cells: seq<TableCell>, height: nat, width: nat) {
    && height > 0 && width > 0
    && (forall cell | cell in cells :: Inside(cell, height, width) && Strip(cell.text) == cell.text)
    && (forall r: nat, c: nat | r < height && c < width :: Covered(cells, r, c))
    && (forall a, b, r: nat, c: nat | a in cells && b in cells && r < height && c < width ::
          Covers(a, r, c) && Covers(b, r, c) ==> a == b)
  }

  /** A list of rectangles that tiles a grid labels it, and labels it with exactly these rectangles. */
  lemma ListOfTiles(cells: seq<TableCell>, height: nat, width: nat)
    requires TilesGrid(cells, height, width)
    ensures Tiling(OwnerGrid(cells, height, width), height, width)
    ensures forall cell :: cell in cells <==> cell in CornerCells(OwnerGrid(cells, height, width), 0, 0)
  {
    var t := OwnerGrid(cells, height, width);
    forall r: nat, c: nat | r < height && c < width
      ensures t[r][c] in cells && Covers(t[r][c], r, c)
    {
      OwnerCovers(cells, height, width, r, c);
    }
    forall r, c, i, j | 0 <= r < height && 0 <= c < width && 0 <= i < height && 0 <= j < width && Covers(t[r][c], i, j)
      ensures t[i][j] == t[r][c]
    {
      OwnerCovers(cells, height, width, r, c);
      OwnerCovers(cells, height, width, i, j);
    }
    forall cell
      ensures cell in cells <==> cell in CornerCells(t, 0, 0)
    {
      if cell in cells {
        var i, j := cell.startRow, cell.startCol;
        OwnerCovers(cells, height, width, i, j);
        assert Covers(cell, i, j);
        CornerIsListed(t, 0, 0, i, j);
      }
      if cell in CornerCells(t, 0, 0) {
        var i, j := ListedIsCorner(t, 0, 0, cell);
        OwnerCovers(cells, height, width, i, j);
      }
    }
  }

  lemma OwnerCovers(cells: seq<TableCell>, height: nat, width: nat, r: nat, c: nat)
    requires TilesGrid(cells, height, width) && r < height && c < width
    ensures OwnerGrid(cells, height, width)[r][c] in cells && Covers(OwnerGrid(cells, height, width)[r][c], r, c)
    ensures forall cell | cell in cells && Covers(cell, r, c) :: OwnerGrid(cells, height, width)[r][c] == cell
  {
    assert Covered(cells, r, c);
    var cell :| cell in cells && Covers(cell, r, c);
    OnlyOwner(cells, r, c, cell);
  }

  // ----- slot allocation of a printed tiling

  /** The slots of the rectangles that start in an earlier row, or in row r before column c. */
  ghost function TakenBefore(t: seq<seq<TableCell>>, height: nat, width: nat, r: int, c: int): Slots
    requires |t| == height && forall i | 0 <= i < height :: |t[i]| == width
  {
    set i, j | 0 <= i < height && 0 <= j < width &&
               (t[i][j].startRow < r || (t[i][j].startRow == r && t[i][j].startCol < c)) :: (i, j)
  }

  function Columns(cells: seq<TableCell>): seq<int> {
    seq(|cells|, k requires 0 <= k < |cells| => cells[k].startCol)
  }

  /** Between the pointer and column c, on whichever side it is, everything is taken. */
  ghost predicate Gapless(occupied: Slots, r: int, col: int, c: int) {
    forall j | (col <= j < c) || (c <= j < col) :: (r, j) in occupied
  }

  lemma SlotTaken(t: seq<seq<TableCell>>, height: nat, width: nat, r: nat, c: nat)
    requires Tiling(t, height, width) && r < height && c < width
    ensures (r, c) in TakenBefore(t, height, width, r, c) <==> !StartsAt(t[r][c], r, c)
    ensures !StartsAt(t[r][c], r, c) ==>
      TakenBefore(t, height, width, r, c + 1) == TakenBefore(t, height, width, r, c)
    ensures StartsAt(t[r][c], r, c) ==>
      TakenBefore(t, height, width, r, c + 1) ==
        TakenBefore(t, height, width, r, c) + Area(r, c, t[r][c].rowSpan, t[r][c].colSpan)
  {
    forall i, j | 0 <= i < height && 0 <= j < width && StartsAt(t[i][j], r, c)
      ensures t[i][j] == t[r][c]
    {
      assert Covers(t[i][j], r, c);
    }
    if StartsAt(t[r][c], r, c) {
      var area := Area(r, c, t[r][c].rowSpan, t[r][c].colSpan);
      forall i, j | (i, j) in area
        ensures 0 <= i < height && 0 <= j < width && t[i][j] == t[r][c]
      {
        assert Covers(t[r][c], i, j);
      }
      forall i, j | 0 <= i < height && 0 <= j < width && t[i][j] == t[r][c]
        ensures (i, j) in area
      {
        assert Covers(t[i][j], i, j);
      }
    }
  }

  lemma PlaceCorner(t: seq<seq<TableCell>>, height: nat, width: nat, r: nat, c: nat, s: RowState)
    requires Tiling(t, height, width) && r < height && c < width && StartsAt(t[r][c], r, c)
    requires s.occupied == TakenBefore(t, height, width, r, c) && Gapless(s.occupied, r, s.col, c)
    ensures var s' := PlaceCell(s, r, ToHtml(t[r][c]));
      && s'.occupied == TakenBefore(t, height, width, r, c + 1)
      && s'.columns == s.columns + [c]
      && Gapless(s'.occupied, r, s'.col, c + 1)
  {
    var cell := t[r][c];
    CornerInside(t, height, width, r, c);
    SlotTaken(t, height, width, r, c);
    assert s.col <= c;
    FreeIsFirst(s.occupied, r, s.col, c);
    assert RowSpan(ToHtml(cell)) == cell.rowSpan && ColSpan(ToHtml(cell)) == cell.colSpan;
  }

  /** The state reached when the cells of row r before column c have been placed where they came from. */
  ghost predicate Replayed(t: seq<seq<TableCell>>, height: nat, width: nat, r: nat, c: nat, s: RowState)
    requires Tiling(t, height, width) && r < height && c <= width
  {
    && s.occupied == TakenBefore(t, height, width, r, c)
    && s.columns == Columns(StartsTo(t[r], r, c))
    && Gapless(s.occupied, r, s.col, c)
  }

  lemma ReplayStep(t: seq<seq<TableCell>>, height: nat, width: nat, r: nat, c: nat, s: RowState)
    requires Tiling(t, height, width) && r < height && c < width && Replayed(t, height, width, r, c, s)
    ensures Replayed(t, height, width, r, c + 1,
                     if StartsAt(t[r][c], r, c) then PlaceCell(s, r, ToHtml(t[r][c])) else s)
  {
    SlotTaken(t, height, width, r, c);
    if StartsAt(t[r][c], r, c) {
      PlaceCorner(t, height, width, r, c, s);
      assert StartsTo(t[r], r, c + 1) == StartsTo(t[r], r, c) + [t[r][c]];
      assert Columns(StartsTo(t[r], r, c + 1)) == Columns(StartsTo(t[r], r, c)) + [c];
    } else {
      assert StartsTo(t[r], r, c + 1) == StartsTo(t[r], r, c);
    }
  }

  /** Placing the cells that start in row r before column c, one column after the other. */
  ghost function ReplayTo(start: RowState, slots: seq<TableCell>, r: int, c: nat): RowState
    requires c <= |slots|
  {
    if c == 0 then start
    else
      var s := ReplayTo(start, slots, r, c - 1);
      if StartsAt(slots[c - 1], r, c - 1) then PlaceCell(s, r, ToHtml(slots[c - 1])) else s
  }

  lemma {:induction false} ReplayIsPlaceRow(start: RowState, slots: seq<TableCell>, r: int, c: nat)
    requires c <= |slots|
    ensures PlaceRow(start, r, HtmlRowOf(StartsTo(slots, r, c))) == ReplayTo(start, slots, r, c)
  {
    if c == 0 {
      assert HtmlRowOf(StartsTo(slots, r, 0)) == [];
    } else {
      ReplayIsPlaceRow(start, slots, r, c - 1);
      var before, cell := HtmlRowOf(StartsTo(slots, r, c - 1)), ToHtml(slots[c - 1]);
      StartsHtmlStep(slots, r, c);
      if StartsAt(slots[c - 1], r, c - 1) {
        PlaceRowSnoc(start, r, before, cell);
        assert HtmlRowOf(StartsTo(slots, r, c)) == before + [cell];
      } else {
        assert HtmlRowOf(StartsTo(slots, r, c)) == before;
      }
    }
  }

  lemma StartsHtmlStep(slots: seq<TableCell>, r: int, c: nat)
    requires 0 < c <= |slots|
    ensures var before := HtmlRowOf(StartsTo(slots, r, c - 1));
      HtmlRowOf(StartsTo(slots, r, c)) ==
        if StartsAt(slots[c - 1], r, c - 1) then before + [ToHtml(slots[c - 1])] else before
  {
    var init := StartsTo(slots, r, c - 1);
    if StartsAt(slots[c - 1], r, c - 1) {
      HtmlRowSnoc(init, slots[c - 1]);
    } else {
      assert init + [] == init;
    }
  }

  lemma PlaceRowSnoc(start: RowState, r: int, row: HtmlRow, cell: HtmlCell)
    ensures PlaceRow(start, r, row + [cell]) == PlaceCell(PlaceRow(start, r, row), r, cell)
  {
    assert (row + [cell])[..|row|] == row;
  }

  lemma ReplayStart(t: seq<seq<TableCell>>, height: nat, width: nat, r: nat, start: RowState)
    requires Tiling(t, height, width) && r < height
    requires start.occupied == TakenBefore(t, height, width, r, 0) && start.col == 0 && start.columns == []
    ensures Replayed(t, height, width, r, 0, start)
  {
    assert Columns(StartsTo(t[r], r, 0)) == [];
  }

  lemma ReplayNext(t: seq<seq<TableCell>>, height: nat, width: nat, r: nat, c: nat, start: RowState)
    requires Tiling(t, height, width) && r < height && c < width
    requires Replayed(t, height, width, r, c, ReplayTo(start, t[r], r, c))
    ensures Replayed(t, height, width, r, c + 1, ReplayTo(start, t[r], r, c + 1))
  {
    ReplayStep(t, height, width, r, c, ReplayTo(start, t[r], r, c));
  }

  lemma {:induction false} RowIsReplayed(t: seq<seq<TableCell>>, height: nat, width: nat, r: nat, c: nat,
                                         start: RowState)
    requires Tiling(t, height, width) && r < height && c <= width
    requires start.occupied == TakenBefore(t, height, width, r, 0) && start.col == 0 && start.columns == []
    ensures Replayed(t, height, width, r, c, ReplayTo(start, t[r], r, c))
    decreases c
  {
    if c == 0 {
      ReplayStart(t, height, width, r, start);
    } else {
      RowIsReplayed(t, height, width, r, c - 1, start);
      ReplayNext(t, height, width, r, c - 1, start);
    }
  }

  lemma RowReplays(t: seq<seq<TableCell>>, height: nat, width: nat, r: nat, start: RowState)
    requires Tiling(t, height, width) && r < height
    requires start.occupied == TakenBefore(t, height, width, r, 0) && start.col == 0 && start.columns == []
    ensures PlaceRow(start, r, HtmlRows(t)[r]).occupied == TakenBefore(t, height, width, r + 1, 0)
    ensures PlaceRow(start, r, HtmlRows(t)[r]).columns == Columns(RowStarts(t[r], r))
  {
    RowIsReplayed(t, height, width, r, width, start);
    ReplayIsPlaceRow(start, t[r], r, width);
    RowIsFull(t, height, width, r);
  }

  lemma {:induction false} RowsAreReplayed(t: seq<seq<TableCell>>, height: nat, width: nat, r: nat)
    requires Tiling(t, height, width) && r <= height
    ensures PlaceRows(HtmlRows(t)[..r]).occupied == TakenBefore(t, height, width, r, 0)
    ensures r > 0 ==> PlaceRows(HtmlRows(t)[..r]).columns == Columns(RowStarts(t[r - 1], r - 1))
  {
    if r > 0 {
      RowsAreReplayed(t, height, width, r - 1);
      var before := PlaceRows(HtmlRows(t)[..r - 1]);
      RowReplays(t, height, width, r - 1, RowState(before.occupied, 0, before.furthest, []));
      PlaceRowsStep(HtmlRows(t), r);
    } else {
      NothingAbove(t, height, width);
    }
  }

  lemma PlaceRowsStep(rows: seq<HtmlRow>, r: nat)
    requires 0 < r <= |rows|
    ensures var before := PlaceRows(rows[..r - 1]);
      PlaceRows(rows[..r]) == PlaceRow(RowState(before.occupied, 0, before.furthest, []), r - 1, rows[r - 1])
  {
    assert rows[..r][..r - 1] == rows[..r - 1];
  }

  lemma NothingAbove(t: seq<seq<TableCell>>, height: nat, width: nat)
    requires Tiling(t, height, width)
    ensures TakenBefore(t, height, width, 0, 0) == {}
  {
    forall i: nat, j: nat | i < height && j < width
      ensures t[i][j].startRow >= 0 && t[i][j].startCol >= 0
    {
      CornerInside(t, height, width, i, j);
    }
    assert forall slot :: slot !in TakenBefore(t, height, width, 0, 0);
  }

  lemma RowIsFull(t: seq<seq<TableCell>>, height: nat, width: nat, r: nat)
    requires Tiling(t, height, width) && r < height
    ensures TakenBefore(t, height, width, r, width) == TakenBefore(t, height, width, r + 1, 0)
    ensures forall j :: (r, j) in TakenBefore(t, height, width, r + 1, 0) <==> 0 <= j < width
  {
    forall i, j | 0 <= i < height && 0 <= j < width
      ensures t[i][j].startCol < width && 0 <= t[i][j].startCol && t[i][j].startRow <= i
    {
      CornerInside(t, height, width, i, j);
      assert Covers(t[i][j], i, j);
    }
  }

  /** The table printed for a tiling, read back by slot allocation: every cell of row r returns to its own
      column with its own text and spans, and every row has exactly the width of the grid. */
  lemma HtmlRoundTrip(t: seq<seq<TableCell>>, height: nat, width: nat, r: nat)
    requires Tiling(t, height, width) && r < height
    ensures |HtmlRows(t)| == height
    ensures PlaceRows(HtmlRows(t)[..r + 1]).columns == Columns(RowStarts(t[r], r))
    ensures forall k | 0 <= k < |HtmlRows(t)[r]| :: SameCell(HtmlRows(t)[r][k], RowStarts(t[r], r)[k])
    ensures Effective(HtmlRows(t), r, width)
  {
    RowsAreReplayed(t, height, width, r + 1);
    RowIsWide(t, height, width, r);
    CellsAreSame(t, height, width, r);
  }

  lemma RowIsWide(t: seq<seq<TableCell>>, height: nat, width: nat, r: nat)
    requires Tiling(t, height, width) && r < height
    ensures Effective(HtmlRows(t), r, width)
  {
    var occupied := PlaceRows(HtmlRows(t)[..r + 1]).occupied;
    assert occupied == TakenBefore(t, height, width, r + 1, 0) by { RowsAreReplayed(t, height, width, r + 1); }
    assert forall j :: (r, j) in occupied <==> 0 <= j < width by { RowIsFull(t, height, width, r); }
    assert (r, width - 1) in occupied;
  }

  lemma CellsAreSame(t: seq<seq<TableCell>>, height: nat, width: nat, r: nat)
    requires Tiling(t, height, width) && r < height
    ensures forall k | 0 <= k < |HtmlRows(t)[r]| :: SameCell(HtmlRows(t)[r][k], RowStarts(t[r], r)[k])
  {
    forall k | 0 <= k < |HtmlRows(t)[r]|
      ensures SameCell(HtmlRows(t)[r][k], RowStarts(t[r], r)[k])
    {
      StartsAreTiles(t, height, width, r, width, k);
    }
  }

  /** Same text and the same spans once omitted attributes are read as 1. */
  predicate SameCell(html: HtmlCell, cell: TableCell) {
    html.text == cell.text && RowSpan(html) == cell.rowSpan && ColSpan(html) == cell.colSpan
  }

  lemma {:induction false} StartsAreTiles(t: seq<seq<TableCell>>, height: nat, width: nat, r: nat, c: nat, k: nat)
    requires Tiling(t, height, width) && r < height && c <= width && k < |StartsTo(t[r], r, c)|
    ensures SameCell(ToHtml(StartsTo(t[r], r, c)[k]), StartsTo(t[r], r, c)[k])
  {
    if k < |StartsTo(t[r], r, c - 1)| {
      StartsAreTiles(t, height, width, r, c - 1, k);
    } else {
      CornerInside(t, height, width, r, c - 1);
    }
  }

  // ----- from OTSL to HTML and back to slots

  /** The HTML rows for an OTSL text; None where reading it fails. */
  function Converted(stream: seq<Item>): Option<seq<HtmlRow>> {
    var split := SplitRows(Tokens(stream));
    var cells := ParsedCells(MixedTexts(stream), Tokens(stream));
    if cells.None? then None else Some(Exported(cells.value, |split|, MaxLength(split)))
  }

  lemma {:induction false} CellsStartInside(items: seq<Item>, rows: seq<seq<Token>>, cols: nat, r: nat, c: nat)
    requires Rectangular(rows, cols)
    ensures ParseFrom(items, rows, cols, r, c).Some? ==>
      forall cell | cell in ParseFrom(items, rows, cols, r, c).value :: cell.startRow >= 0 && cell.startCol >= 0
    decreases |items|
  {
    if items == [] {
    } else {
      if items[0] == Tok(Nl) {
        CellsStartInside(items[1..], rows, cols, r + 1, 0);
      } else if items[0].Text? {
        CellsStartInside(items[1..], rows, cols, r, c);
      } else {
        CellsStartInside(items[1..], rows, cols, r, c + 1);
      }
    }
  }

  method ConvertOtslToHtml(stream: seq<Item>) returns (html: Option<seq<HtmlRow>>)
    ensures html == Converted(stream)
  {
    var tokens, texts := Tokens(stream), MixedTexts(stream);
    var cells, rows := ParseTexts(texts, tokens);
    if cells.None? {
      return None;
    }
    var items := if rows == [] then texts else GridItems(FillRows(rows, texts));
    CellsStartInside(items, rows, MaxLength(SplitRows(tokens)), 0, 0);
    var body := ExportToHtml(cells.value, |rows|, MaxLength(SplitRows(tokens)));
    return Some(body);
  }

  /** The printed tokens of a tiling become the HTML table of that tiling. */
  lemma OtslBecomesHtml(t: seq<seq<TableCell>>, height: nat, width: nat)
    requires Tiling(t, height, width)
    ensures Converted(PrintOtsl(t)) == Some(HtmlRows(t))
  {
    OtslRoundTrip.OtslRoundTrip(t, height, width);
    PrintedFormSplits(t, height, width);
    TilingIsFilled(t, height, width);
    PaddedAlready(TokenGrid(t), width);
    GridOfCorners(t, height, width);
  }
}
