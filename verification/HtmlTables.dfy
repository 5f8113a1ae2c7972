/** Printing cells as an HTML table (MinerU/mineru/utils/format_utils.py) and allocating the slots of
    such a table (MinerU/mineru/utils/table_merge.py). */
module HtmlTables {
  import opened Basics
  import opened Otsl

  /** A td element; a span attribute is None when it is not written. */
  datatype HtmlCell = HtmlCell(text: string, rowspan: Option<int>, colspan: Option<int>)

  type HtmlRow = seq<HtmlCell>

  function RowSpan(cell: HtmlCell): int {
    if cell.rowspan.Some? then cell.rowspan.value else 1
  }

  function ColSpan(cell: HtmlCell): int {
    if cell.colspan.Some? then cell.colspan.value else 1
  }

  // ----- from cells to HTML

  /** The last of the cells that spans the slot, or an empty cell of its own. */
  function SlotOwner(cells: seq<TableCell>, r: nat, c: nat): TableCell {
    if cells == [] then TableCell("", 1, 1, r, c)
    else if Covers(cells[|cells| - 1], r, c) then cells[|cells| - 1]
    else SlotOwner(cells[..|cells| - 1], r, c)
  }

  /** The last cell that covers a slot has it. */
  lemma {:induction false} LastCellOwns(cells: seq<TableCell>, r: nat, c: nat, k: nat)
    requires k < |cells| && Covers(cells[k], r, c) && forall m | k < m < |cells| :: !Covers(cells[m], r, c)
    ensures SlotOwner(cells, r, c) == cells[k]
  {
    if k == |cells| - 1 {
    } else {
      LastCellOwns(cells[..|cells| - 1], r, c, k);
    }
  }

  /** A slot that no cell covers is an empty cell of its own. */
  lemma {:induction false} NoCellOwns(cells: seq<TableCell>, r: nat, c: nat)
    requires forall cell | cell in cells :: !Covers(cell, r, c)
    ensures SlotOwner(cells, r, c) == TableCell("", 1, 1, r, c)
  {
    if cells == [] {
    } else {
      NoCellOwns(cells[..|cells| - 1], r, c);
    }
  }

  function OwnerGrid(cells: seq<TableCell>, height: nat, width: nat): seq<seq<TableCell>> {
    seq(height, r requires 0 <= r < height => seq(width, c requires 0 <= c < width => SlotOwner(cells, r, c)))
  }

  /** One row of the grid after writing a cell into the columns that it spans. */
  method WriteCell(row: seq<TableCell>, cell: TableCell) returns (written: seq<TableCell>)
    requires cell.startCol >= 0
    ensures |written| == |row|
    ensures forall c | 0 <= c < |row| ::
      written[c] == if cell.startCol <= c < cell.startCol + cell.colSpan then cell else row[c]
  {
    written := row;
    var c := Min(cell.startCol, |row|);
    while c < Min(cell.startCol + cell.colSpan, |row|)
      invariant |written| == |row|
      invariant Min(cell.startCol, |row|) <= c
      invariant forall k | 0 <= k < |row| ::
        written[k] == if cell.startCol <= k < cell.startCol + cell.colSpan && k < c then cell else row[k]
      decreases |row| - c
    {
      written := written[c := cell];
      c := c + 1;
    }
  }

  /** The grid of a table: later cells overwrite earlier ones, spans are cut at the border. */
  method Grid(cells: seq<TableCell>, height: nat, width: nat) returns (grid: seq<seq<TableCell>>)
    requires forall cell | cell in cells :: cell.startRow >= 0 && cell.startCol >= 0
    ensures grid == OwnerGrid(cells, height, width)
  {
    grid := OwnerGrid([], height, width);
    for n := 0 to |cells|
      invariant grid == OwnerGrid(cells[..n], height, width)
    {
      var cell := cells[n];
      assert cell in cells;
      ghost var before := grid;
      var r := Min(cell.startRow, height);
      while r < Min(cell.startRow + cell.rowSpan, height)
        invariant |grid| == height && Min(cell.startRow, height) <= r
        invariant forall k | 0 <= k < height :: |grid[k]| == width
        invariant forall k, c | 0 <= k < height && 0 <= c < width ::
          grid[k][c] == if Covers(cell, k, c) && k < r then cell else before[k][c]
        decreases height - r
      {
        var row := WriteCell(grid[r], cell);
        grid := grid[r := row];
        r := r + 1;
      }
      assert cells[..n + 1][..n] == cells[..n];
      forall k | 0 <= k < height
        ensures grid[k] == OwnerGrid(cells[..n + 1], height, width)[k]
      {
      }
    }
    assert cells[..|cells|] == cells;
  }

  function ToHtml(cell: TableCell): HtmlCell {
    HtmlCell(Strip(cell.text),
             if cell.rowSpan > 1 then Some(cell.rowSpan) else None,
             if cell.colSpan > 1 then Some(cell.colSpan) else None)
  }

  /** The text of a cell loses the white space at its ends and no more; spans are given only above 1. */
  lemma HtmlCellIs(cell: TableCell) returns (front: string, back: string)
    ensures Blank(front) && Blank(back) && cell.text == front + ToHtml(cell).text + back
    ensures var text := ToHtml(cell).text; text != [] ==> !IsSpace(text[0]) && !IsSpace(text[|text| - 1])
    ensures RowSpan(ToHtml(cell)) == Max(1, cell.rowSpan) && ColSpan(ToHtml(cell)) == Max(1, cell.colSpan)
    ensures ToHtml(cell).rowspan.Some? <==> cell.rowSpan > 1
    ensures ToHtml(cell).colspan.Some? <==> cell.colSpan > 1
  {
    front, back := StripIs(cell.text);
  }

  /** The cells that start in row r, in their own slots, among the columns before c. */
  function StartsTo(row: seq<TableCell>, r: int, c: nat): seq<TableCell>
    requires c <= |row|
  {
    if c == 0 then []
    else StartsTo(row, r, c - 1) + if StartsAt(row[c - 1], r, c - 1) then [row[c - 1]] else []
  }

  /** The cells that start in row r, left to right. */
  function RowStarts(row: seq<TableCell>, r: int): seq<TableCell> {
    StartsTo(row, r, |row|)
  }

  function HtmlRowOf(cells: seq<TableCell>): HtmlRow {
    seq(|cells|, k requires 0 <= k < |cells| => ToHtml(cells[k]))
  }

  function HtmlRows(grid: seq<seq<TableCell>>): seq<HtmlRow> {
    seq(|grid|, r requires 0 <= r < |grid| => HtmlRowOf(RowStarts(grid[r], r)))
  }

  lemma HtmlRowSnoc(cells: seq<TableCell>, cell: TableCell)
    ensures HtmlRowOf(cells + [cell]) == HtmlRowOf(cells) + [ToHtml(cell)]
  {
  }

  method ExportRow(slots: seq<TableCell>, r: nat) returns (row: HtmlRow)
    ensures row == HtmlRowOf(RowStarts(slots, r))
  {
    row := [];
    for c := 0 to |slots|
      invariant row == HtmlRowOf(StartsTo(slots, r, c))
    {
      var cell := slots[c];
      HtmlRowSnoc(StartsTo(slots, r, c), cell);
      if cell.startRow != r { continue; }
      if cell.startCol != c { continue; }
      row := row + [ToHtml(cell)];
    }
  }

  /** The rows of the HTML table; no rows at all when there are no cells. */
  function Exported(cells: seq<TableCell>, height: nat, width: nat): seq<HtmlRow> {
    if cells == [] then [] else HtmlRows(OwnerGrid(cells, height, width))
  }

  method ExportToHtml(cells: seq<TableCell>, height: nat, width: nat) returns (body: seq<HtmlRow>)
    requires forall cell | cell in cells :: cell.startRow >= 0 && cell.startCol >= 0
    ensures body == Exported(cells, height, width)
  {
    if cells == [] {
      return [];
    }
    var grid := Grid(cells, height, width);
    body := [];
    for r := 0 to height
      invariant |body| == r
      invariant forall k | 0 <= k < r :: body[k] == HtmlRowOf(RowStarts(grid[k], k))
    {
      var row := ExportRow(grid[r], r);
      body := body + [row];
    }
  }

  // ----- slot allocation

  type Slots = set<(int, int)>

  /** The slots that a cell placed at (r, c) takes. */
  function Area(r: int, c: int, height: int, width: int): Slots {
    set i, j | r <= i < r + height && c <= j < c + width :: (i, j)
  }

  /** The first column of row r from c on that is not taken. */
  function FirstFree(occupied: Slots, r: int, c: int): (free: int)
    ensures c <= free && (r, free) !in occupied
    ensures forall j | c <= j < free :: (r, j) in occupied
    decreases |occupied|
  {
    if (r, c) in occupied then
      var free := FirstFree(occupied - {(r, c)}, r, c + 1);
      assert forall j | c < j < free :: (r, j) in occupied - {(r, c)};
      free
    else c
  }

  /** Slots taken after a row, the pointer behind its last cell, the furthest the pointer has been, and the
      column given to each cell. */
  datatype RowState = RowState(occupied: Slots, col: int, furthest: int, columns: seq<int>)

  function PlaceCell(s: RowState, r: int, cell: HtmlCell): RowState {
    var c := FirstFree(s.occupied, r, s.col);
    var next := c + ColSpan(cell);
    RowState(s.occupied + Area(r, c, RowSpan(cell), ColSpan(cell)), next,
             if next > s.furthest then next else s.furthest, s.columns + [c])
  }

  function PlaceRow(s: RowState, r: int, row: HtmlRow): RowState {
    if row == [] then s else PlaceCell(PlaceRow(s, r, row[..|row| - 1]), r, row[|row| - 1])
  }

  /** The state after row |rows| - 1. */
  function PlaceRows(rows: seq<HtmlRow>): RowState {
    if rows == [] then RowState({}, 0, 0, [])
    else
      var before := PlaceRows(rows[..|rows| - 1]);
      PlaceRow(RowState(before.occupied, 0, before.furthest, []), |rows| - 1, rows[|rows| - 1])
  }

  /** One more than the last taken column of row r, or zero. */
  ghost predicate Extent(occupied: Slots, r: int, n: int) {
    if exists j :: (r, j) in occupied
    then (r, n - 1) in occupied && forall j | (r, j) in occupied :: j < n
    else n == 0
  }

  /** Row r of the table has n effective columns, its own and those reached by spans from above. */
  ghost predicate Effective(rows: seq<HtmlRow>, r: int, n: int)
    requires 0 <= r < |rows|
  {
    Extent(PlaceRows(rows[..r + 1]).occupied, r, n)
  }

  ghost predicate EffectiveColumns(rows: seq<HtmlRow>, effective: map<int, int>) {
    && (forall r :: r in effective <==> 0 <= r < |rows|)
    && (forall r | 0 <= r < |rows| :: Effective(rows, r, effective[r]))
  }

  /** While the column is taken, the pointer moves right. */
  method SkipOccupied(occupied: Slots, r: int, start: int) returns (c: int)
    ensures c == FirstFree(occupied, r, start)
  {
    c := start;
    ghost var left := occupied;
    while (r, c) in occupied
      invariant start <= c && left <= occupied
      invariant forall j | start <= j < c :: (r, j) in occupied
      invariant forall j | c <= j && (r, j) in occupied :: (r, j) in left
      decreases |left|
    {
      left := left - {(r, c)};
      c := c + 1;
    }
    FreeIsFirst(occupied, r, start, c);
  }

  lemma FreeIsFirst(occupied: Slots, r: int, start: int, c: int)
    requires start <= c && (r, c) !in occupied && forall j | start <= j < c :: (r, j) in occupied
    ensures c == FirstFree(occupied, r, start)
  {
    var free := FirstFree(occupied, r, start);
    assert !(free < c) && !(c < free);
  }

  /** Marks the slots of one cell. */
  method Occupy(before: Slots, r: int, c: int, height: int, width: int) returns (occupied: Slots)
    ensures occupied == before + Area(r, c, height, width)
  {
    occupied := before;
    var i := r;
    while i < r + height
      invariant r <= i && (i == r || i <= r + height)
      invariant occupied == before + Area(r, c, i - r, width)
      decreases r + height - i
    {
      var j := c;
      while j < c + width
        invariant c <= j && (j == c || j <= c + width)
        invariant occupied == before + Area(r, c, i - r, width) + Area(i, c, 1, j - c)
        decreases c + width - j
      {
        occupied := occupied + {(i, j)};
        j := j + 1;
      }
      assert Area(i, c, 1, j - c) == Area(i, c, 1, width);
      assert Area(r, c, i - r, width) + Area(i, c, 1, width) == Area(r, c, i + 1 - r, width);
      i := i + 1;
    }
    assert Area(r, c, i - r, width) == Area(r, c, height, width);
  }

  /** Places the cells of one row, left to right. */
  method PlaceCells(before: Slots, furthest0: int, r: int, row: HtmlRow)
    returns (occupied: Slots, furthest: int)
    ensures occupied == PlaceRow(RowState(before, 0, furthest0, []), r, row).occupied
    ensures furthest == PlaceRow(RowState(before, 0, furthest0, []), r, row).furthest
  {
    occupied, furthest := before, furthest0;
    var col := 0;
    ghost var start := RowState(before, 0, furthest0, []);
    ghost var state := start;
    for k := 0 to |row|
      invariant state == PlaceRow(start, r, row[..k])
      invariant state.occupied == occupied && state.col == col && state.furthest == furthest
    {
      var cell := row[k];
      assert row[..k + 1][..k] == row[..k];
      col := SkipOccupied(occupied, r, col);
      occupied := Occupy(occupied, r, col, RowSpan(cell), ColSpan(cell));
      col := col + ColSpan(cell);
      if col > furthest {
        furthest := col;
      }
      state := PlaceCell(state, r, cell);
    }
    assert row[..|row|] == row;
  }

  lemma {:induction false} FurthestIsIgnored(s: RowState, s': RowState, r: int, row: HtmlRow)
    requires s.occupied == s'.occupied && s.col == s'.col
    ensures PlaceRow(s, r, row).occupied == PlaceRow(s', r, row).occupied
    ensures PlaceRow(s, r, row).col == PlaceRow(s', r, row).col
  {
    if row == [] {
    } else {
      FurthestIsIgnored(s, s', r, row[..|row| - 1]);
    }
  }

  method CalculateTableTotalColumns(rows: seq<HtmlRow>) returns (maxCols: int)
    ensures maxCols == PlaceRows(rows).furthest
  {
    var occupied: Slots := {};
    maxCols := 0;
    for r := 0 to |rows|
      invariant occupied == PlaceRows(rows[..r]).occupied && maxCols == PlaceRows(rows[..r]).furthest
    {
      assert rows[..r + 1][..r] == rows[..r];
      occupied, maxCols := PlaceCells(occupied, maxCols, r, rows[r]);
    }
    assert rows[..|rows|] == rows;
  }

  method RowExtent(occupied: Slots, r: int) returns (n: int)
    ensures Extent(occupied, r, n)
  {
    n := 0;
    var todo := occupied;
    var none := true;
    while todo != {}
      invariant todo <= occupied
      invariant none ==> n == 0 && forall j :: (r, j) in occupied ==> (r, j) in todo
      invariant !none ==> (r, n - 1) in occupied && forall j | (r, j) in occupied && (r, j) !in todo :: j < n
      decreases todo
    {
      var slot :| slot in todo;
      todo := todo - {slot};
      if slot.0 == r && (none || slot.1 >= n) {
        n, none := slot.1 + 1, false;
      }
    }
  }

  /** The slots taken do not depend on the furthest pointer, which is not tracked here. */
  lemma OccupiedStep(rows: seq<HtmlRow>, r: nat)
    requires r < |rows|
    ensures PlaceRows(rows[..r + 1]).occupied ==
      PlaceRow(RowState(PlaceRows(rows[..r]).occupied, 0, 0, []), r, rows[r]).occupied
  {
    assert rows[..r + 1][..r] == rows[..r];
    var before := PlaceRows(rows[..r]);
    FurthestIsIgnored(RowState(before.occupied, 0, before.furthest, []), RowState(before.occupied, 0, 0, []),
                      r, rows[r]);
  }

  method BuildTableOccupiedMatrix(rows: seq<HtmlRow>) returns (effective: map<int, int>)
    ensures EffectiveColumns(rows, effective)
  {
    var occupied: Slots := {};
    effective := map[];
    for r := 0 to |rows|
      invariant occupied == PlaceRows(rows[..r]).occupied
      invariant forall k :: k in effective <==> 0 <= k < r
      invariant forall k | 0 <= k < r :: Effective(rows, k, effective[k])
    {
      OccupiedStep(rows, r);
      var furthest;
      occupied, furthest := PlaceCells(occupied, 0, r, rows[r]);
      var n := RowExtent(occupied, r);
      effective := effective[r := n];
    }
  }
}
