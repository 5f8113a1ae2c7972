/** What reading OTSL promises: on any token grid, and on the tokens of a tiling by rectangles. */
module OtslRoundTrip {
  import opened Basics
  import opened Otsl

  // ----- any token grid

  /** `slots` holds the tokens of `rows`, a non-empty rectangle without new lines. */
  ghost predicate Filled(rows: seq<seq<Token>>, cols: nat, slots: seq<seq<Slot>>) {
    && Rectangular(rows, cols) && cols > 0 && |slots| == |rows|
    && forall r | 0 <= r < |rows| ::
         |rows[r]| == cols && |slots[r]| == cols && forall c | 0 <= c < cols :: slots[r][c].token == rows[r][c] != Nl
  }

  /** The items from slot (r, c) on. */
  function Rest(slots: seq<seq<Slot>>, r: nat, c: nat): seq<Item>
    requires r < |slots| && c <= |slots[r]|
  {
    RowItems(slots[r][c..]) + [Tok(Nl)] + GridItems(slots[r + 1..])
  }

  lemma RestStep(slots: seq<seq<Slot>>, r: nat, c: nat)
    requires r < |slots| && c < |slots[r]|
    ensures Rest(slots, r, c) == SlotItems(slots[r][c]) + Rest(slots, r, c + 1)
  {
    assert slots[r][c..][0] == slots[r][c] && slots[r][c..][1..] == slots[r][c + 1..];
  }

  lemma RestLine(slots: seq<seq<Slot>>, r: nat)
    requires r < |slots|
    ensures Rest(slots, r, |slots[r]|) ==
      [Tok(Nl)] + if r + 1 < |slots| then Rest(slots, r + 1, 0) else []
  {
    if r + 1 < |slots| {
      assert slots[r + 1..][0] == slots[r + 1] && slots[r + 1..][1..] == slots[r + 2..];
      assert slots[r + 1][0..] == slots[r + 1];
    }
  }

  /** A full cell without text ends row r and the next row begins with a cell reached from the left. */
  ghost predicate Overrun(rows: seq<seq<Token>>, cols: nat, slots: seq<seq<Slot>>, r: nat)
    requires Filled(rows, cols, slots)
  {
    && r + 1 < |rows|
    && slots[r][cols - 1] == Slot(Full, None)
    && (rows[r + 1][0] == Left || rows[r + 1][0] == Cross)
  }

  predicate IsCorner(token: Token) {
    token == Full || token == Empty
  }

  /** The positions of full and empty cells, row by row, from (r, c) on. */
  function CornersFrom(rows: seq<seq<Token>>, r: nat, c: nat): seq<(nat, nat)>
    decreases |rows| - r, if r < |rows| then |rows[r]| - c else 0
  {
    if r >= |rows| then []
    else if c >= |rows[r]| then CornersFrom(rows, r + 1, 0)
    else (if IsCorner(rows[r][c]) then [(r, c)] else []) + CornersFrom(rows, r, c + 1)
  }

  /** The cell is at least one slot in size and stays inside the grid. */
  ghost predicate Inside(cell: TableCell, height: nat, width: nat) {
    && 0 <= cell.startRow && cell.rowSpan >= 1 && cell.startRow + cell.rowSpan <= height
    && 0 <= cell.startCol && cell.colSpan >= 1 && cell.startCol + cell.colSpan <= width
  }

  /** Whether the reader, looking behind the slot and its text, finds the cell continued to the right; behind a full
      slot without text it takes the next token for the text and looks behind that. */
  ghost predicate SeesRight(row: seq<Slot>, c: int)
    requires 0 <= c < |row|
  {
    if row[c].token == Full && row[c].text.None? then
      c + 2 < |row| && row[c + 1].text.None? && (row[c + 2].token == Left || row[c + 2].token == Cross)
    else
      && c + 1 < |row| && (row[c].token == Full || row[c].text.None?)
      && (row[c + 1].token == Left || row[c + 1].token == Cross)
  }

  /** The span is the whole run to the right, if the reader sees that there is one. */
  ghost predicate SpansRight(row: seq<Slot>, c: int, n: int)
    requires 0 <= c < |row| && 1 <= n && c + n <= |row|
  {
    && (forall k | c < k < c + n :: row[k].token == Left || row[k].token == Cross)
    && (if SeesRight(row, c) then c + n < |row| ==> row[c + n].token != Left && row[c + n].token != Cross else n == 1)
  }

  /** The span is the whole run downwards. */
  ghost predicate SpansDown(rows: seq<seq<Token>>, cols: nat, r: int, c: int, n: int)
    requires Rectangular(rows, cols) && 0 <= c < cols && 0 <= r && 1 <= n && r + n <= |rows|
  {
    && (forall k | r < k < r + n :: |rows[k]| == cols && (rows[k][c] == Up || rows[k][c] == Cross))
    && (r + n < |rows| ==> |rows[r + n]| == cols && rows[r + n][c] != Up && rows[r + n][c] != Cross)
  }

  /** The text of the slot; that of a full slot without one is the token behind it, as it is spelled. */
  ghost predicate ReadsText(row: seq<Token>, slot: Slot, c: int, text: string)
    requires 0 <= c < |row|
  {
    if slot.token == Empty then text == ""
    else if slot.text.Some? then text == Strip(slot.text.value)
    else text == Strip(Spelling(Tok(if c + 1 < |row| then row[c + 1] else Nl)))
  }

  /** The cell lies inside the grid, and its spans and its text are what the tokens and the texts say. */
  ghost predicate AsWritten(rows: seq<seq<Token>>, cols: nat, slots: seq<seq<Slot>>, cell: TableCell)
    requires Filled(rows, cols, slots)
  {
    && Inside(cell, |rows|, cols)
    && var (r, c) := (cell.startRow, cell.startCol);
      && SpansRight(slots[r], c, cell.colSpan) && SpansDown(rows, cols, r, c, cell.rowSpan)
      && ReadsText(rows[r], slots[r][c], c, cell.text)
  }

  ghost predicate StartAt(cells: seq<TableCell>, positions: seq<(nat, nat)>) {
    && |cells| == |positions|
    && forall k | 0 <= k < |cells| :: cells[k].startRow == positions[k].0 && cells[k].startCol == positions[k].1
  }

  lemma {:induction false} RunRightBound(row: seq<Token>, c: nat)
    requires c <= |row|
    ensures c + RunRight(row, c) <= |row|
    decreases |row| - c
  {
    if c < |row| && ReachesRight(row[c]) {
      RunRightBound(row, c + 1);
    }
  }

  lemma {:induction false} RunDownBound(rows: seq<seq<Token>>, r: nat, c: nat)
    requires r <= |rows| && forall row | row in rows :: c < |row|
    ensures r + RunDown(rows, r, c) <= |rows|
    decreases |rows| - r
  {
    if r < |rows| && ReachesDown(rows[r][c]) {
      RunDownBound(rows, r + 1, c);
    }
  }

  lemma {:induction false} RunRightStops(row: seq<Token>, c: nat)
    requires c <= |row|
    ensures forall k | c <= k < c + RunRight(row, c) :: k < |row| && (row[k] == Left || row[k] == Cross)
    ensures var k := c + RunRight(row, c); k <= |row| && (k < |row| ==> row[k] != Left && row[k] != Cross)
    decreases |row| - c
  {
    if c < |row| && ReachesRight(row[c]) {
      RunRightStops(row, c + 1);
    }
  }

  lemma {:induction false} RunDownStops(rows: seq<seq<Token>>, r: nat, c: nat)
    requires r <= |rows| && forall row | row in rows :: c < |row|
    ensures forall k | r <= k < r + RunDown(rows, r, c) ::
      k < |rows| && c < |rows[k]| && (rows[k][c] == Up || rows[k][c] == Cross)
    ensures var k := r + RunDown(rows, r, c);
      k <= |rows| && (k < |rows| ==> c < |rows[k]| && rows[k][c] != Up && rows[k][c] != Cross)
    decreases |rows| - r
  {
    if r < |rows| {
      assert rows[r] in rows;
      if ReachesDown(rows[r][c]) {
        RunDownStops(rows, r + 1, c);
      }
    }
  }

  /** What the reader looks at, to the right of a slot. */
  lemma LooksRight(rows: seq<seq<Token>>, cols: nat, slots: seq<seq<Slot>>, r: nat, c: nat)
    requires Filled(rows, cols, slots) && r < |rows| && c + 1 < cols && IsCorner(rows[r][c])
    ensures var items, offset := Rest(slots, r, c), if rows[r][c] == Full then 2 else 1;
      && items[0] == Tok(rows[r][c])
      && (offset < |items| && items[offset].Tok? && ReachesRight(items[offset].token) <==> SeesRight(slots[r], c))
  {
    var slot, next := slots[r][c], Rest(slots, r, c + 1);
    RestStep(slots, r, c);
    NextItems(rows, cols, slots, r, c);
    LooksAhead(slot, next);
    if slot == Slot(Full, None) {
      SecondItem(rows, cols, slots, r, c);
    }
  }

  lemma RunIsSpan(rows: seq<seq<Token>>, cols: nat, slots: seq<seq<Slot>>, r: nat, c: nat, n: nat)
    requires Filled(rows, cols, slots) && r < |rows| && c < cols
    requires n == 1 + if SeesRight(slots[r], c) && c + 1 < cols then RunRight(rows[r], c + 1) else 0
    ensures c + n <= cols && SpansRight(slots[r], c, n)
  {
    if c + 1 < cols {
      RunRightStops(rows[r], c + 1);
    }
  }

  lemma CellSpansRight(rows: seq<seq<Token>>, cols: nat, slots: seq<seq<Slot>>, r: nat, c: nat)
    requires Filled(rows, cols, slots) && r < |rows| && c < cols && IsCorner(rows[r][c])
    requires StartsCell(Rest(slots, r, c)[0])
    ensures var cell := CellAt(Rest(slots, r, c), rows, cols, r, c);
      cell.Some? ==>
        && cell.value.colSpan >= 1 && c + cell.value.colSpan <= cols
        && SpansRight(slots[r], c, cell.value.colSpan)
  {
    var cell := CellAt(Rest(slots, r, c), rows, cols, r, c);
    if cell.Some? {
      if c + 1 < cols {
        LooksRight(rows, cols, slots, r, c);
      }
      RunIsSpan(rows, cols, slots, r, c, cell.value.colSpan);
    }
  }

  lemma SecondItem(rows: seq<seq<Token>>, cols: nat, slots: seq<seq<Slot>>, r: nat, c: nat)
    requires Filled(rows, cols, slots) && r < |rows| && c + 1 < cols
    ensures var next := Rest(slots, r, c + 1);
      && |next| > 1
      && (slots[r][c + 1].text.Some? ==> next[1].Text?)
      && (slots[r][c + 1].text.None? ==> next[1] == if c + 2 < cols then Tok(rows[r][c + 2]) else Tok(Nl))
  {
    var slot := slots[r][c + 1];
    RestStep(slots, r, c + 1);
    if slot.text.None? {
      NextItems(rows, cols, slots, r, c + 1);
      assert Rest(slots, r, c + 1)[1] == Rest(slots, r, c + 2)[0];
    } else {
      assert Rest(slots, r, c + 1)[1] == Text(slot.text.value);
    }
  }

  lemma CellSpansDown(rows: seq<seq<Token>>, cols: nat, items: seq<Item>, r: nat, c: nat)
    requires Rectangular(rows, cols) && r < |rows| && c < cols == |rows[r]| && items != [] && StartsCell(items[0])
    ensures var cell := CellAt(items, rows, cols, r, c);
      cell.Some? ==>
        && cell.value.rowSpan >= 1 && r + cell.value.rowSpan <= |rows|
        && SpansDown(rows, cols, r, c, cell.value.rowSpan)
  {
    if r + 1 < |rows| {
      assert rows[r + 1] in rows;
      RunDownStops(rows, r + 1, c);
    }
    forall k | 0 <= k < |rows|
      ensures |rows[k]| == cols
    {
      assert rows[k] in rows;
    }
  }

  lemma CellReadsText(rows: seq<seq<Token>>, cols: nat, slot: Slot, next: seq<Item>, r: nat, c: nat)
    requires Rectangular(rows, cols) && r < |rows| && c < cols == |rows[r]| && IsCorner(slot.token)
    requires next != [] && next[0] == if c + 1 < cols then Tok(rows[r][c + 1]) else Tok(Nl)
    requires StartsCell((SlotItems(slot) + next)[0])
    ensures var cell := CellAt(SlotItems(slot) + next, rows, cols, r, c);
      cell.Some? ==> ReadsText(rows[r], slot, c, cell.value.text)
  {
    LooksAhead(slot, next);
    var items := SlotItems(slot) + next;
    assert slot.token == Full && slot.text.Some? ==> items[1] == Text(slot.text.value);
    assert slot == Slot(Full, None) ==> items[1] == next[0];
  }

  /** The cell read from a slot and the items behind it: only a full cell without text in the last column
      can look beyond the row, and fails if it meets a cell reached from the left there. */
  lemma CellFromItems(rows: seq<seq<Token>>, cols: nat, slot: Slot, next: seq<Item>, r: nat, c: nat)
    requires Rectangular(rows, cols) && r < |rows| && c < cols == |rows[r]| && IsCorner(slot.token)
    requires next != [] && next[0] == if c + 1 < cols then Tok(rows[r][c + 1]) else Tok(Nl)
    ensures StartsCell((SlotItems(slot) + next)[0])
    ensures var cell := CellAt(SlotItems(slot) + next, rows, cols, r, c);
      && (cell.None? <==>
            c == cols - 1 && slot == Slot(Full, None) && |next| > 1 && next[1].Tok? && ReachesRight(next[1].token))
      && (cell.Some? ==> Inside(cell.value, |rows|, cols) && cell.value.startRow == r && cell.value.startCol == c)
  {
    LooksAhead(slot, next);
    CellFails(rows, cols, slot, next, r, c);
    CellFits(rows, cols, SlotItems(slot) + next, r, c);
  }

  lemma CellFails(rows: seq<seq<Token>>, cols: nat, slot: Slot, next: seq<Item>, r: nat, c: nat)
    requires Rectangular(rows, cols) && r < |rows| && c < cols == |rows[r]| && IsCorner(slot.token)
    requires next != [] && next[0] == if c + 1 < cols then Tok(rows[r][c + 1]) else Tok(Nl)
    requires StartsCell((SlotItems(slot) + next)[0])
    ensures CellAt(SlotItems(slot) + next, rows, cols, r, c).None? <==>
      c == cols - 1 && slot == Slot(Full, None) && |next| > 1 && next[1].Tok? && ReachesRight(next[1].token)
  {
    LooksAhead(slot, next);
  }

  /** Spans that are counted stay inside the grid. */
  lemma CellFits(rows: seq<seq<Token>>, cols: nat, items: seq<Item>, r: nat, c: nat)
    requires Rectangular(rows, cols) && r < |rows| && c < cols == |rows[r]| && items != [] && StartsCell(items[0])
    ensures var cell := CellAt(items, rows, cols, r, c);
      cell.Some? ==> Inside(cell.value, |rows|, cols) && cell.value.startRow == r && cell.value.startCol == c
  {
    if c + 1 < cols {
      RunRightBound(rows[r], c + 1);
    }
    if r + 1 < |rows| {
      assert rows[r + 1] in rows;
      RunDownBound(rows, r + 1, c);
    }
  }

  /** What the reader takes for the next token of the row behind a corner. */
  lemma LooksAhead(slot: Slot, next: seq<Item>)
    requires IsCorner(slot.token) && next != []
    ensures var items, offset := SlotItems(slot) + next, if slot.token == Full then 2 else 1;
      && items[0] == Tok(slot.token)
      && (slot == Slot(Full, None) ==>
            (offset < |items| <==> |next| > 1) && (|next| > 1 ==> items[offset] == next[1]))
      && (slot == Slot(Empty, None) || (slot.token == Full && slot.text.Some?) ==>
            offset < |items| && items[offset] == next[0])
      && (slot.token == Empty && slot.text.Some? ==> offset < |items| && !items[offset].Tok?)
  {
    var items := SlotItems(slot) + next;
    if slot.text.Some? {
      assert items[1] == Text(slot.text.value) && items[2] == next[0];
    } else {
      assert items[1] == next[0] && (|next| > 1 ==> items[2] == next[1]);
    }
  }

  /** One emitted cell: it fails exactly on an overrun, and otherwise is as written. */
  lemma CellAtSlot(rows: seq<seq<Token>>, cols: nat, slots: seq<seq<Slot>>, r: nat, c: nat)
    requires Filled(rows, cols, slots) && r < |rows| && c < cols && IsCorner(rows[r][c])
    ensures StartsCell(Rest(slots, r, c)[0])
    ensures var cell := CellAt(Rest(slots, r, c), rows, cols, r, c);
      && (cell.None? <==> c == cols - 1 && Overrun(rows, cols, slots, r))
      && (cell.Some? ==>
            AsWritten(rows, cols, slots, cell.value) && cell.value.startRow == r && cell.value.startCol == c)
  {
    var next := Rest(slots, r, c + 1);
    RestStep(slots, r, c);
    NextItems(rows, cols, slots, r, c);
    CellFromItems(rows, cols, slots[r][c], next, r, c);
    CellSpansRight(rows, cols, slots, r, c);
    CellSpansDown(rows, cols, SlotItems(slots[r][c]) + next, r, c);
    CellReadsText(rows, cols, slots[r][c], next, r, c);
  }

  /** The items behind slot (r, c), as far as a cell looks ahead. */
  lemma NextItems(rows: seq<seq<Token>>, cols: nat, slots: seq<seq<Slot>>, r: nat, c: nat)
    requires Filled(rows, cols, slots) && r < |rows| && c < cols
    ensures var next := Rest(slots, r, c + 1);
      && next != []
      && (c + 1 < cols ==> next[0] == Tok(rows[r][c + 1]))
      && (c + 1 == cols ==> next[0] == Tok(Nl))
      && (c + 1 == cols && r + 1 < |rows| ==> |next| > 1 && next[1] == Tok(rows[r + 1][0]))
      && (c + 1 == cols && r + 1 == |rows| ==> |next| == 1)
  {
    if c + 1 < cols {
      RestStep(slots, r, c + 1);
    } else {
      RestLine(slots, r);
      if r + 1 < |slots| {
        RestStep(slots, r + 1, 0);
      }
    }
  }

  lemma ParseStep(rows: seq<seq<Token>>, cols: nat, slots: seq<seq<Slot>>, r: nat, c: nat)
    requires Filled(rows, cols, slots) && r < |rows| && c < cols
    ensures ParseFrom(Rest(slots, r, c), rows, cols, r, c) ==
      if !IsCorner(rows[r][c]) then ParseFrom(Rest(slots, r, c + 1), rows, cols, r, c + 1)
      else
        var cell := CellAt(Rest(slots, r, c), rows, cols, r, c);
        if cell.None? then None else Prepend([cell.value], ParseFrom(Rest(slots, r, c + 1), rows, cols, r, c + 1))
  {
    RestStep(slots, r, c);
    var items, next := Rest(slots, r, c), Rest(slots, r, c + 1);
    if slots[r][c].text.Some? {
      assert items[1..][0].Text? && items[1..][1..] == next;
    } else {
      assert items[1..] == next;
    }
  }

  lemma ParseLine(rows: seq<seq<Token>>, cols: nat, slots: seq<seq<Slot>>, r: nat)
    requires Filled(rows, cols, slots) && r < |rows|
    ensures ParseFrom(Rest(slots, r, cols), rows, cols, r, cols) ==
      if r + 1 < |rows| then ParseFrom(Rest(slots, r + 1, 0), rows, cols, r + 1, 0) else Some([])
  {
    RestLine(slots, r);
    assert Rest(slots, r, cols)[1..] == if r + 1 < |rows| then Rest(slots, r + 1, 0) else [];
  }

  /** Some row whose end is still ahead of slot (r, c) overruns. */
  ghost predicate OverrunAhead(rows: seq<seq<Token>>, cols: nat, slots: seq<seq<Slot>>, r: nat, c: nat)
    requires Filled(rows, cols, slots)
  {
    exists k: nat :: (if c < cols then r else r + 1) <= k < |rows| && Overrun(rows, cols, slots, k)
  }

  lemma OverrunAheadStep(rows: seq<seq<Token>>, cols: nat, slots: seq<seq<Slot>>, r: nat, c: nat)
    requires Filled(rows, cols, slots) && r < |rows| && c <= cols
    ensures c == cols ==>
      (OverrunAhead(rows, cols, slots, r, c) <==> r + 1 < |rows| && OverrunAhead(rows, cols, slots, r + 1, 0))
    ensures c < cols ==>
      (OverrunAhead(rows, cols, slots, r, c) <==>
         (c == cols - 1 && Overrun(rows, cols, slots, r)) || OverrunAhead(rows, cols, slots, r, c + 1))
  {
  }

  ghost predicate AllAsWritten(rows: seq<seq<Token>>, cols: nat, slots: seq<seq<Slot>>, cells: seq<TableCell>)
    requires Filled(rows, cols, slots)
  {
    forall cell {:trigger AsWritten(rows, cols, slots, cell)} | cell in cells :: AsWritten(rows, cols, slots, cell)
  }

  lemma OneMoreWritten(rows: seq<seq<Token>>, cols: nat, slots: seq<seq<Slot>>, cell: TableCell,
                       cells: seq<TableCell>)
    requires Filled(rows, cols, slots) && AsWritten(rows, cols, slots, cell) && AllAsWritten(rows, cols, slots, cells)
    ensures AllAsWritten(rows, cols, slots, [cell] + cells)
  {
  }

  ghost predicate CellsOf(cells: seq<TableCell>, rows: seq<seq<Token>>, cols: nat, slots: seq<seq<Slot>>, r: nat,
                          c: nat)
    requires Filled(rows, cols, slots)
  {
    StartAt(cells, CornersFrom(rows, r, c)) && AllAsWritten(rows, cols, slots, cells)
  }

  lemma OneMoreStarts(cell: TableCell, cells: seq<TableCell>, position: (nat, nat), positions: seq<(nat, nat)>)
    requires StartAt(cells, positions) && cell.startRow == position.0 && cell.startCol == position.1
    ensures StartAt([cell] + cells, [position] + positions)
  {
  }

  lemma CornersStep(rows: seq<seq<Token>>, r: nat, c: nat)
    requires r < |rows| && c < |rows[r]|
    ensures IsCorner(rows[r][c]) ==> CornersFrom(rows, r, c) == [(r, c)] + CornersFrom(rows, r, c + 1)
    ensures !IsCorner(rows[r][c]) ==> CornersFrom(rows, r, c) == CornersFrom(rows, r, c + 1)
  {
    if !IsCorner(rows[r][c]) {
      assert CornersFrom(rows, r, c) == [] + CornersFrom(rows, r, c + 1);
    }
  }

  lemma CellsOfCorner(cell: TableCell, cells: seq<TableCell>, rows: seq<seq<Token>>, cols: nat,
                      slots: seq<seq<Slot>>, r: nat, c: nat)
    requires Filled(rows, cols, slots) && r < |rows| && c < cols && IsCorner(rows[r][c])
    requires CellsOf(cells, rows, cols, slots, r, c + 1)
    requires AsWritten(rows, cols, slots, cell) && cell.startRow == r && cell.startCol == c
    ensures CellsOf([cell] + cells, rows, cols, slots, r, c)
  {
    assert AllAsWritten(rows, cols, slots, [cell] + cells) by { OneMoreWritten(rows, cols, slots, cell, cells); }
    CornersStep(rows, r, c);
    OneMoreStarts(cell, cells, (r, c), CornersFrom(rows, r, c + 1));
  }

  lemma {:induction false} ParseAnyGridFrom(rows: seq<seq<Token>>, cols: nat, slots: seq<seq<Slot>>, r: nat, c: nat)
    requires Filled(rows, cols, slots) && r < |rows| && c <= cols
    ensures var result := ParseFrom(Rest(slots, r, c), rows, cols, r, c);
      && (result.None? <==> OverrunAhead(rows, cols, slots, r, c))
      && (result.Some? ==> CellsOf(result.value, rows, cols, slots, r, c))
    decreases |rows| - r, cols - c
  {
    OverrunAheadStep(rows, cols, slots, r, c);
    if c == cols {
      ParseLine(rows, cols, slots, r);
      if r + 1 < |rows| {
        ParseAnyGridFrom(rows, cols, slots, r + 1, 0);
      } else {
        assert CornersFrom(rows, r + 1, 0) == [];
      }
    } else {
      ParseStep(rows, cols, slots, r, c);
      ParseAnyGridFrom(rows, cols, slots, r, c + 1);
      var rest := ParseFrom(Rest(slots, r, c + 1), rows, cols, r, c + 1);
      if IsCorner(rows[r][c]) {
        CellAtSlot(rows, cols, slots, r, c);
        var cell := CellAt(Rest(slots, r, c), rows, cols, r, c);
        if cell.Some? && rest.Some? {
          CellsOfCorner(cell.value, rest.value, rows, cols, slots, r, c);
        }
      } else if rest.Some? {
        CornersStep(rows, r, c);
      }
    }
  }

  /** Reading any grid of tokens fails exactly on an overrun; otherwise each full or empty cell is emitted
      once, row by row, inside the padded grid and as written there. */
  lemma ParseAnyGrid(rows: seq<seq<Token>>, cols: nat, texts: seq<Item>)
    requires rows != [] && cols > 0 && Rectangular(rows, cols)
    requires forall r, c | 0 <= r < |rows| && 0 <= c < |rows[r]| :: rows[r][c] != Nl
    ensures Filled(rows, cols, FillRows(rows, texts))
    ensures var result := ParseFrom(GridItems(FillRows(rows, texts)), rows, cols, 0, 0);
      && (result.None? <==> exists r: nat :: r < |rows| && Overrun(rows, cols, FillRows(rows, texts), r))
      && (result.Some? ==> StartAt(result.value, CornersFrom(rows, 0, 0)))
      && (result.Some? ==> AllAsWritten(rows, cols, FillRows(rows, texts), result.value))
  {
    var slots := FillRows(rows, texts);
    ParseAnyGridFrom(rows, cols, slots, 0, 0);
    assert slots[0][0..] == slots[0];
    assert GridItems(slots) == Rest(slots, 0, 0);
  }

  lemma {:induction false} SplitRowsShape(tokens: seq<Token>)
    ensures forall row | row in SplitRows(tokens) :: row != [] && forall token | token in row :: token != Nl
    decreases |tokens|
  {
    if tokens == [] {
    } else {
      if tokens[0] == Nl {
        SplitRowsShape(tokens[1..]);
      } else {
        SplitRowsShape(tokens[LineLength(tokens)..]);
      }
    }
  }

  /** The same for any tokens and texts, whether or not they belong together. */
  lemma ParseAnyInput(texts: seq<Item>, tokens: seq<Token>)
    requires exists token | token in tokens :: token != Nl
    ensures var rows, cols := PadAll(SplitRows(tokens)), MaxLength(SplitRows(tokens));
      && rows != [] && Filled(rows, cols, FillRows(rows, texts))
      && (ParsedCells(texts, tokens).None? <==>
            exists r: nat :: r < |rows| && Overrun(rows, cols, FillRows(rows, texts), r))
      && (ParsedCells(texts, tokens).Some? ==>
            && StartAt(ParsedCells(texts, tokens).value, CornersFrom(rows, 0, 0))
            && AllAsWritten(rows, cols, FillRows(rows, texts), ParsedCells(texts, tokens).value))
  {
    SplitRowsShape(tokens);
    SomeRow(tokens);
    PadAllShape(SplitRows(tokens));
    ParseAnyGrid(PadAll(SplitRows(tokens)), MaxLength(SplitRows(tokens)), texts);
  }

  lemma PadAllShape(split: seq<seq<Token>>)
    requires split != [] && forall row | row in split :: row != [] && forall token | token in row :: token != Nl
    ensures MaxLength(split) > 0 && PadAll(split) != []
    ensures forall r, c | 0 <= r < |PadAll(split)| && 0 <= c < |PadAll(split)[r]| :: PadAll(split)[r][c] != Nl
  {
    assert split[0] in split;
    forall r, c | 0 <= r < |PadAll(split)| && 0 <= c < |PadAll(split)[r]|
      ensures PadAll(split)[r][c] != Nl
    {
      PadToAt(split, MaxLength(split), r);
      assert split[r] in split;
      PaddedHasNoNl(split[r], MaxLength(split) - |split[r]|, c);
    }
  }

  lemma PaddedHasNoNl(row: seq<Token>, n: nat, c: nat)
    requires c < |row + Padding(n)| && forall token | token in row :: token != Nl
    ensures (row + Padding(n))[c] != Nl
  {
    assert c < |row| ==> row[c] in row;
  }

  lemma {:induction false} SomeRow(tokens: seq<Token>)
    requires exists token | token in tokens :: token != Nl
    ensures SplitRows(tokens) != []
  {
    if tokens[0] == Nl {
      var token :| token in tokens && token != Nl;
      assert token in tokens[1..];
      SomeRow(tokens[1..]);
    }
  }

  // ----- tilings

  /** Every slot names the rectangle that covers it, and all slots of a rectangle name the same one. */
  ghost predicate Tiling(t: seq<seq<TableCell>>, height: nat, width: nat) {
    && |t| == height > 0 && width > 0
    && (forall r | 0 <= r < height :: |t[r]| == width)
    && (forall r, c | 0 <= r < height && 0 <= c < width ::
          Inside(t[r][c], height, width) && Covers(t[r][c], r, c) && Strip(t[r][c].text) == t[r][c].text)
    && (forall r, c, i, j {:trigger Covers(t[r][c], i, j)} |
            0 <= r < height && 0 <= c < width && 0 <= i < height && 0 <= j < width ::
          Covers(t[r][c], i, j) ==> t[i][j] == t[r][c])
  }

  /** The token of one slot: corner, top edge, left edge, or interior of its rectangle. */
  function TokenFor(cell: TableCell, r: int, c: int): Token {
    if StartsAt(cell, r, c) then (if cell.text == "" then Empty else Full)
    else if cell.startRow == r then Left
    else if cell.startCol == c then Up
    else Cross
  }

  function SlotFor(cell: TableCell, r: int, c: int): Slot {
    var token := TokenFor(cell, r, c);
    Slot(token, if token == Full then Some(cell.text) else None)
  }

  function TokenGrid(t: seq<seq<TableCell>>): seq<seq<Token>> {
    seq(|t|, r requires 0 <= r < |t| => seq(|t[r]|, c requires 0 <= c < |t[r]| => TokenFor(t[r][c], r, c)))
  }

  function SlotGrid(t: seq<seq<TableCell>>): seq<seq<Slot>> {
    seq(|t|, r requires 0 <= r < |t| => seq(|t[r]|, c requires 0 <= c < |t[r]| => SlotFor(t[r][c], r, c)))
  }

  /** The OTSL text of a tiling. */
  function PrintOtsl(t: seq<seq<TableCell>>): seq<Item> {
    GridItems(SlotGrid(t))
  }

  /** The rectangles of a tiling, each once, by corner, row by row, from slot (r, c) on. */
  function CornerCells(t: seq<seq<TableCell>>, r: nat, c: nat): seq<TableCell>
    decreases |t| - r, if r < |t| then |t[r]| - c else 0
  {
    if r >= |t| then []
    else if c >= |t[r]| then CornerCells(t, r + 1, 0)
    else (if StartsAt(t[r][c], r, c) then [t[r][c]] else []) + CornerCells(t, r, c + 1)
  }

  lemma TilingIsFilled(t: seq<seq<TableCell>>, height: nat, width: nat)
    requires Tiling(t, height, width)
    ensures Filled(TokenGrid(t), width, SlotGrid(t))
  {
    forall row | row in TokenGrid(t)
      ensures |row| == width
    {
      var r :| 0 <= r < height && TokenGrid(t)[r] == row;
    }
  }

  lemma TokenGridAt(t: seq<seq<TableCell>>, height: nat, width: nat, r: nat, c: nat)
    requires Tiling(t, height, width) && r < height && c < width
    ensures |TokenGrid(t)| == height && |TokenGrid(t)[r]| == width
    ensures TokenGrid(t)[r][c] == TokenFor(t[r][c], r, c)
    ensures |SlotGrid(t)| == height && |SlotGrid(t)[r]| == width
    ensures SlotGrid(t)[r][c] == SlotFor(t[r][c], r, c)
  {
  }

  /** To the right of a corner come the rest of its top edge and then a slot that does not continue it. */
  lemma TileRight(t: seq<seq<TableCell>>, height: nat, width: nat, r: nat, c: nat, k: nat)
    requires Tiling(t, height, width) && r < height && c < k < width && StartsAt(t[r][c], r, c)
    requires k <= c + t[r][c].colSpan
    ensures ReachesRight(TokenFor(t[r][k], r, k)) <==> k < c + t[r][c].colSpan
  {
    if k < c + t[r][c].colSpan {
      assert Covers(t[r][c], r, k);
    } else {
      assert Covers(t[r][c], r, k - 1);
      if t[r][k].startCol < k {
        assert Covers(t[r][k], r, k - 1);
      }
    }
  }

  lemma TileBelow(t: seq<seq<TableCell>>, height: nat, width: nat, r: nat, c: nat, k: nat)
    requires Tiling(t, height, width) && r < k < height && c < width && StartsAt(t[r][c], r, c)
    requires k <= r + t[r][c].rowSpan
    ensures ReachesDown(TokenFor(t[k][c], k, c)) <==> k < r + t[r][c].rowSpan
  {
    if k < r + t[r][c].rowSpan {
      assert Covers(t[r][c], k, c);
    } else {
      assert Covers(t[r][c], k - 1, c);
      if t[k][c].startRow < k {
        assert Covers(t[k][c], k - 1, c);
      }
    }
  }

  lemma CornerInside(t: seq<seq<TableCell>>, height: nat, width: nat, r: nat, c: nat)
    requires Tiling(t, height, width) && r < height && c < width
    ensures Inside(t[r][c], height, width) && Strip(t[r][c].text) == t[r][c].text
  {
  }

  lemma {:induction false} RunRightIs(row: seq<Token>, c: nat, n: nat)
    requires c + n <= |row| && forall k | c <= k < c + n :: ReachesRight(row[k])
    requires c + n < |row| ==> !ReachesRight(row[c + n])
    ensures RunRight(row, c) == n
    decreases n
  {
    if n == 0 {
    } else {
      RunRightIs(row, c + 1, n - 1);
    }
  }

  lemma {:induction false} RunDownIs(rows: seq<seq<Token>>, r: nat, c: nat, n: nat)
    requires forall row | row in rows :: c < |row|
    requires r + n <= |rows| && forall k | r <= k < r + n :: ReachesDown(rows[k][c])
    requires r + n < |rows| ==> !ReachesDown(rows[r + n][c])
    ensures RunDown(rows, r, c) == n
    decreases n
  {
    if n == 0 {
    } else {
      RunDownIs(rows, r + 1, c, n - 1);
    }
  }

  lemma TileSpanRight(t: seq<seq<TableCell>>, height: nat, width: nat, row: seq<Token>, r: nat, c: nat)
    requires Tiling(t, height, width) && r < height && c < width && StartsAt(t[r][c], r, c)
    requires |row| == width && forall k | 0 <= k < width :: row[k] == TokenFor(t[r][k], r, k)
    ensures 1 + RunRight(row, c + 1) == t[r][c].colSpan
  {
    CornerInside(t, height, width, r, c);
    forall k | c < k < width && k <= c + t[r][c].colSpan
      ensures ReachesRight(row[k]) <==> k < c + t[r][c].colSpan
    {
      TileRight(t, height, width, r, c, k);
    }
    RunRightIs(row, c + 1, t[r][c].colSpan - 1);
  }

  lemma TileSpanDown(t: seq<seq<TableCell>>, height: nat, width: nat, rows: seq<seq<Token>>, r: nat, c: nat)
    requires Tiling(t, height, width) && r + 1 < height && c < width && StartsAt(t[r][c], r, c)
    requires Rectangular(rows, width) && |rows| == height
    requires forall k | 0 <= k < height :: |rows[k]| == width && rows[k][c] == TokenFor(t[k][c], k, c)
    ensures 1 + RunDown(rows, r + 1, c) == t[r][c].rowSpan
  {
    var span := t[r][c].rowSpan;
    assert span >= 1 && r + span <= height by { CornerInside(t, height, width, r, c); }
    assert forall k | r < k < height && k <= r + span :: ReachesDown(rows[k][c]) <==> k < r + span by {
      forall k | r < k < height && k <= r + span
        ensures ReachesDown(rows[k][c]) <==> k < r + span
      {
        TileBelow(t, height, width, r, c, k);
      }
    }
    SpanDownIs(rows, width, r, c, span);
  }

  lemma SpanDownIs(rows: seq<seq<Token>>, width: nat, r: nat, c: nat, span: nat)
    requires Rectangular(rows, width) && c < width && span >= 1 && r + span <= |rows|
    requires forall k | 0 <= k < |rows| :: |rows[k]| == width
    requires forall k | r < k < |rows| && k <= r + span :: ReachesDown(rows[k][c]) <==> k < r + span
    ensures 1 + RunDown(rows, r + 1, c) == span
  {
    RunDownIs(rows, r + 1, c, span - 1);
  }

  lemma TileSpans(t: seq<seq<TableCell>>, height: nat, width: nat, r: nat, c: nat)
    requires Tiling(t, height, width) && r < height && c < width && StartsAt(t[r][c], r, c)
    requires Rectangular(TokenGrid(t), width)
    ensures |TokenGrid(t)| == height && |TokenGrid(t)[r]| == width
    ensures 1 + RunRight(TokenGrid(t)[r], c + 1) == t[r][c].colSpan
    ensures 1 + (if r + 1 < height then RunDown(TokenGrid(t), r + 1, c) else 0) == t[r][c].rowSpan
  {
    TokenGridAt(t, height, width, r, c);
    forall k | 0 <= k < width
      ensures TokenGrid(t)[r][k] == TokenFor(t[r][k], r, k)
    {
      TokenGridAt(t, height, width, r, k);
    }
    TileSpanRight(t, height, width, TokenGrid(t)[r], r, c);
    if r + 1 < height {
      forall k | 0 <= k < height
        ensures |TokenGrid(t)[k]| == width && TokenGrid(t)[k][c] == TokenFor(t[k][c], k, c)
      {
        TokenGridAt(t, height, width, k, c);
      }
      TileSpanDown(t, height, width, TokenGrid(t), r, c);
    } else {
      CornerInside(t, height, width, r, c);
    }
  }

  /** For a slot that carries its text, the item looked at on the right is the next token of the row. */
  lemma CellFromSlot(rows: seq<seq<Token>>, cols: nat, cell: TableCell, next: seq<Item>, r: nat, c: nat)
    requires Rectangular(rows, cols) && r < |rows| && c < cols == |rows[r]|
    requires StartsAt(cell, r, c) && Strip(cell.text) == cell.text
    requires next != [] && next[0] == if c + 1 < cols then Tok(rows[r][c + 1]) else Tok(Nl)
    requires cell.rowSpan == 1 + if r + 1 < |rows| then RunDown(rows, r + 1, c) else 0
    requires cell.colSpan == 1 + RunRight(rows[r], c + 1)
    ensures var items := SlotItems(SlotFor(cell, r, c)) + next;
      StartsCell(items[0]) && CellAt(items, rows, cols, r, c) == Some(cell)
  {
    var slot := SlotFor(cell, r, c);
    var items := SlotItems(slot) + next;
    var offset := if slot.token == Full then 2 else 1;
    assert items[offset] == next[0];
    if slot.token == Full {
      assert items[1] == Text(slot.text.value);
    }
    if r + 1 < |rows| {
      assert rows[r + 1] in rows;
    }
  }

  /** At a corner the reader finds the rectangle again. */
  lemma TileIsRead(t: seq<seq<TableCell>>, height: nat, width: nat, r: nat, c: nat)
    requires Tiling(t, height, width) && r < height && c < width && StartsAt(t[r][c], r, c)
    requires Filled(TokenGrid(t), width, SlotGrid(t))
    ensures var items := Rest(SlotGrid(t), r, c);
      StartsCell(items[0]) && CellAt(items, TokenGrid(t), width, r, c) == Some(t[r][c])
  {
    var rows, slots, cell := TokenGrid(t), SlotGrid(t), t[r][c];
    var slot, next := SlotFor(cell, r, c), Rest(slots, r, c + 1);
    assert Strip(cell.text) == cell.text by { CornerInside(t, height, width, r, c); }
    assert slots[r][c] == slot && |rows| == height by { TokenGridAt(t, height, width, r, c); }
    assert Rest(slots, r, c) == SlotItems(slot) + next by { RestStep(slots, r, c); }
    assert next != [] && next[0] == if c + 1 < width then Tok(rows[r][c + 1]) else Tok(Nl) by {
      NextItems(rows, width, slots, r, c);
    }
    assert |rows[r]| == width by { TokenGridAt(t, height, width, r, c); }
    TileSpans(t, height, width, r, c);
    CellFromSlot(rows, width, cell, next, r, c);
  }

  /** At slot (r, c) the reader finds the rectangle that has its corner there, or nothing if none has. */
  ghost predicate Found(t: seq<seq<TableCell>>, rows: seq<seq<Token>>, cols: nat, slots: seq<seq<Slot>>, r: nat, c: nat)
    requires Filled(rows, cols, slots) && r < |t| == |rows| && c < cols == |t[r]|
  {
    && (IsCorner(rows[r][c]) <==> StartsAt(t[r][c], r, c))
    && (IsCorner(rows[r][c]) ==> CellAt(Rest(slots, r, c), rows, cols, r, c) == Some(t[r][c]))
  }

  lemma TilesAreFound(t: seq<seq<TableCell>>, height: nat, width: nat, r: nat, c: nat)
    requires Tiling(t, height, width) && r < height && c < width
    requires Filled(TokenGrid(t), width, SlotGrid(t))
    ensures |TokenGrid(t)| == height && Found(t, TokenGrid(t), width, SlotGrid(t), r, c)
  {
    TokenGridAt(t, height, width, r, c);
    if StartsAt(t[r][c], r, c) {
      TileIsRead(t, height, width, r, c);
    }
  }

  lemma FoundStep(t: seq<seq<TableCell>>, rows: seq<seq<Token>>, cols: nat, slots: seq<seq<Slot>>, r: nat, c: nat)
    requires Filled(rows, cols, slots) && r < |t| == |rows| && c < cols == |t[r]|
    requires Found(t, rows, cols, slots, r, c)
    requires ParseFrom(Rest(slots, r, c + 1), rows, cols, r, c + 1) == Some(CornerCells(t, r, c + 1))
    ensures ParseFrom(Rest(slots, r, c), rows, cols, r, c) == Some(CornerCells(t, r, c))
  {
    ParseStep(rows, cols, slots, r, c);
    var rest := CornerCells(t, r, c + 1);
    if StartsAt(t[r][c], r, c) {
      assert CornerCells(t, r, c) == [t[r][c]] + rest;
    } else {
      assert CornerCells(t, r, c) == [] + rest == rest;
    }
  }

  lemma FoundLine(t: seq<seq<TableCell>>, rows: seq<seq<Token>>, cols: nat, slots: seq<seq<Slot>>, r: nat)
    requires Filled(rows, cols, slots) && r < |t| == |rows| && cols == |t[r]|
    requires r + 1 < |t| ==>
      ParseFrom(Rest(slots, r + 1, 0), rows, cols, r + 1, 0) == Some(CornerCells(t, r + 1, 0))
    ensures ParseFrom(Rest(slots, r, cols), rows, cols, r, cols) == Some(CornerCells(t, r, cols))
  {
    ParseLine(rows, cols, slots, r);
    assert r + 1 == |t| ==> CornerCells(t, r + 1, 0) == [];
    assert CornerCells(t, r, cols) == CornerCells(t, r + 1, 0);
  }

  /** From slot (r, c) on, the reader finds the rectangles that have their corners there. */
  ghost predicate ReadFrom(t: seq<seq<TableCell>>, rows: seq<seq<Token>>, cols: nat, slots: seq<seq<Slot>>, r: nat,
                           c: nat)
    requires Filled(rows, cols, slots) && r < |t| == |rows| && c <= cols == |t[r]|
  {
    ParseFrom(Rest(slots, r, c), rows, cols, r, c) == Some(CornerCells(t, r, c))
  }

  /** If every slot of row r is read right, and what follows the row, so is the row from column c on. */
  lemma FoundRow(t: seq<seq<TableCell>>, rows: seq<seq<Token>>, cols: nat, slots: seq<seq<Slot>>, r: nat, c: nat)
    requires Filled(rows, cols, slots) && r < |t| == |rows| && c <= cols == |t[r]|
    requires forall c: nat | c < cols :: Found(t, rows, cols, slots, r, c)
    requires ReadFrom(t, rows, cols, slots, r, cols)
    ensures ReadFrom(t, rows, cols, slots, r, c)
  {
    var p := (k: nat) => k <= cols && ReadFrom(t, rows, cols, slots, r, k);
    forall k: nat | k < cols
      ensures PassesDown(p, k)
    {
      if p(k + 1) {
        FoundStep(t, rows, cols, slots, r, k);
      }
    }
    DownFrom(p, cols, c);
  }

  lemma {:induction false} FoundRows(t: seq<seq<TableCell>>, rows: seq<seq<Token>>, cols: nat, slots: seq<seq<Slot>>,
                                     r: nat)
    requires Filled(rows, cols, slots) && |t| == |rows| && forall r | 0 <= r < |t| :: |t[r]| == cols
    requires forall r: nat, c: nat | r < |t| && c < cols :: Found(t, rows, cols, slots, r, c)
    requires r < |t|
    ensures ReadFrom(t, rows, cols, slots, r, 0)
    decreases |t| - r
  {
    if r + 1 == |t| {
    } else {
      FoundRows(t, rows, cols, slots, r + 1);
    }
    FoundLine(t, rows, cols, slots, r);
    FoundRow(t, rows, cols, slots, r, 0);
  }

  lemma TilesAreRead(t: seq<seq<TableCell>>, height: nat, width: nat)
    requires Tiling(t, height, width) && Filled(TokenGrid(t), width, SlotGrid(t))
    ensures ParseFrom(Rest(SlotGrid(t), 0, 0), TokenGrid(t), width, 0, 0) == Some(CornerCells(t, 0, 0))
  {
    var rows, slots := TokenGrid(t), SlotGrid(t);
    forall r: nat, c: nat | r < height && c < width
      ensures Found(t, rows, width, slots, r, c)
    {
      TilesAreFound(t, height, width, r, c);
    }
    FoundRows(t, rows, width, slots, 0);
  }

  // ----- tokens and texts of a printed grid

  function TokenLines(rows: seq<seq<Token>>): seq<Token> {
    if rows == [] then [] else rows[0] + [Nl] + TokenLines(rows[1..])
  }

  lemma {:induction false} TokensAppend(a: seq<Item>, b: seq<Item>)
    ensures Tokens(a + b) == Tokens(a) + Tokens(b)
  {
    if a == [] {
      assert a + b == b;
    } else {
      TokensAppend(a[1..], b);
      FirstOfAppend(a, b);
      Assoc(if a[0].Tok? then [a[0].token] else [], Tokens(a[1..]), Tokens(b));
    }
  }

  lemma {:induction false} MixedAppend(a: seq<Item>, b: seq<Item>)
    ensures MixedTexts(a + b) == MixedTexts(a) + MixedTexts(b)
  {
    if a == [] {
      assert a + b == b;
    } else {
      MixedAppend(a[1..], b);
      FirstOfAppend(a, b);
      Assoc(if a[0].Text? && Strip(a[0].text) == "" then [] else [a[0]], MixedTexts(a[1..]), MixedTexts(b));
    }
  }

  /** Of all items only blank texts are left out. */
  lemma BlankTextsAreDropped(a: seq<Item>, x: Item, b: seq<Item>)
    ensures MixedTexts(a + [x] + b) ==
      MixedTexts(a) + (if x.Text? && Blank(x.text) then [] else [x]) + MixedTexts(b)
  {
    MixedAppend(a + [x], b);
    MixedAppend(a, [x]);
    MixedOne(x);
  }

  lemma MixedOne(x: Item)
    ensures MixedTexts([x]) == if x.Text? && Blank(x.text) then [] else [x]
  {
    assert [x][1..] == [];
    if x.Text? {
      BlankIsStripped(x.text);
    }
  }

  function TokensOf(slots: seq<Slot>): seq<Token> {
    seq(|slots|, c requires 0 <= c < |slots| => slots[c].token)
  }

  function TokenRows(slots: seq<seq<Slot>>): seq<seq<Token>> {
    seq(|slots|, r requires 0 <= r < |slots| => TokensOf(slots[r]))
  }

  predicate NoBlankText(slots: seq<Slot>) {
    forall slot | slot in slots :: slot.text.Some? ==> Strip(slot.text.value) != ""
  }

  lemma {:induction false} RowItemsSplit(slots: seq<Slot>)
    ensures Tokens(RowItems(slots)) == TokensOf(slots)
    ensures NoBlankText(slots) ==> MixedTexts(RowItems(slots)) == RowItems(slots)
  {
    if slots == [] {
    } else {
      RowItemsSplit(slots[1..]);
      var head := SlotItems(slots[0]);
      TokensAppend(head, RowItems(slots[1..]));
      MixedAppend(head, RowItems(slots[1..]));
      assert TokensOf(slots) == [slots[0].token] + TokensOf(slots[1..]);
      assert head[0] == Tok(slots[0].token) && |head| > 1 ==> head[1..] == [Text(slots[0].text.value)];
      assert Tokens(head) == [slots[0].token];
      if NoBlankText(slots) {
        assert slots[0] in slots;
        assert MixedTexts(head) == head;
      }
    }
  }

  lemma TokenRowsStep(slots: seq<seq<Slot>>)
    requires slots != []
    ensures TokenRows(slots)[0] == TokensOf(slots[0]) && TokenRows(slots)[1..] == TokenRows(slots[1..])
  {
    var a, b := TokenRows(slots)[1..], TokenRows(slots[1..]);
    assert forall r | 0 <= r < |b| :: a[r] == TokensOf(slots[r + 1]) && slots[1..][r] == slots[r + 1];
  }

  lemma {:induction false} GridTokens(slots: seq<seq<Slot>>)
    ensures Tokens(GridItems(slots)) == TokenLines(TokenRows(slots))
  {
    if slots == [] {
    } else {
      GridTokens(slots[1..]);
      RowItemsSplit(slots[0]);
      TokenRowsStep(slots);
      var line := RowItems(slots[0]) + [Tok(Nl)];
      TokensAppend(RowItems(slots[0]), [Tok(Nl)]);
      assert Tokens([Tok(Nl)]) == [Nl];
      TokensAppend(line, GridItems(slots[1..]));
    }
  }

  lemma {:induction false} GridTexts(slots: seq<seq<Slot>>)
    requires forall row | row in slots :: NoBlankText(row)
    ensures MixedTexts(GridItems(slots)) == GridItems(slots)
  {
    if slots == [] {
    } else {
      assert slots[0] in slots && forall row | row in slots[1..] :: row in slots;
      GridTexts(slots[1..]);
      RowItemsSplit(slots[0]);
      MixedAppend(RowItems(slots[0]), [Tok(Nl)]);
      assert MixedTexts([Tok(Nl)]) == [Tok(Nl)];
      MixedAppend(RowItems(slots[0]) + [Tok(Nl)], GridItems(slots[1..]));
    }
  }

  lemma {:induction false} LineLengthIs(row: seq<Token>, rest: seq<Token>)
    requires forall token | token in row :: token != Nl
    ensures LineLength(row + [Nl] + rest) == |row|
  {
    if row == [] {
    } else {
      assert row[0] in row && forall token | token in row[1..] :: token in row;
      LineLengthIs(row[1..], rest);
      assert (row + [Nl] + rest)[1..] == row[1..] + [Nl] + rest;
    }
  }

  lemma {:induction false} SplitLines(rows: seq<seq<Token>>)
    requires forall row | row in rows :: row != [] && forall token | token in row :: token != Nl
    ensures SplitRows(TokenLines(rows)) == rows
  {
    if rows == [] {
    } else {
      var row, rest := rows[0], TokenLines(rows[1..]);
      var tokens := row + [Nl] + rest;
      assert row in rows && tokens[0] == row[0] && row[0] in row;
      LineLengthIs(row, rest);
      assert forall other | other in rows[1..] :: other in rows;
      SplitLines(rows[1..]);
      assert tokens[..|row|] == row && tokens[|row|..] == [Nl] + rest;
      SplitAfterNl(rest);
    }
  }

  lemma SplitAfterNl(rest: seq<Token>)
    ensures SplitRows([Nl] + rest) == SplitRows(rest)
  {
    assert ([Nl] + rest)[1..] == rest;
  }

  lemma RefillSlot(slot: Slot, next: seq<Item>)
    requires next == [] || next[0].Tok?
    ensures FillSlot(slot.token, SlotItems(slot) + next) == (slot, next)
  {
    var items := SlotItems(slot) + next;
    if slot.text.Some? {
      assert items[1] == Text(slot.text.value) && items[2..] == next;
    } else {
      assert items[1..] == next && (|items| > 1 ==> items[1] == next[0]);
    }
  }

  lemma RowItemsFirst(slot: Slot, others: seq<Slot>, rest: seq<Item>)
    ensures RowItems([slot] + others) + rest == SlotItems(slot) + (RowItems(others) + rest)
  {
    assert ([slot] + others)[1..] == others;
    Assoc(SlotItems(slot), RowItems(others), rest);
  }

  lemma RowStartsWithToken(slots: seq<Slot>, rest: seq<Item>)
    requires rest == [] || rest[0].Tok?
    ensures RowItems(slots) + rest == [] || (RowItems(slots) + rest)[0].Tok?
  {
    if slots == [] {
      assert RowItems(slots) + rest == rest;
    }
  }

  lemma {:induction false} RefillRow(slots: seq<Slot>, rest: seq<Item>)
    requires rest == [] || rest[0].Tok?
    ensures FillRow(TokensOf(slots), RowItems(slots) + rest) == (slots, rest)
  {
    if slots == [] {
      assert RowItems(slots) + rest == rest;
    } else {
      var slot, others := slots[0], slots[1..];
      RefillRow(others, rest);
      RowStartsWithToken(others, rest);
      RefillFirst(slot, others, RowItems(others) + rest, rest);
      RowItemsFirst(slot, others, rest);
      assert slots == [slot] + others;
    }
  }

  lemma RefillFirst(slot: Slot, others: seq<Slot>, next: seq<Item>, rest: seq<Item>)
    requires (next == [] || next[0].Tok?) && FillRow(TokensOf(others), next) == (others, rest)
    ensures FillRow(TokensOf([slot] + others), SlotItems(slot) + next) == ([slot] + others, rest)
  {
    RefillSlot(slot, next);
    FillRowStep(slot.token, TokensOf(others), SlotItems(slot) + next, slot, next, others, rest);
    assert TokensOf([slot] + others) == [slot.token] + TokensOf(others);
  }

  lemma FillRowStep(token: Token, tokens: seq<Token>, items: seq<Item>, slot: Slot, next: seq<Item>, slots: seq<Slot>,
                    rest: seq<Item>)
    requires FillSlot(token, items) == (slot, next) && FillRow(tokens, next) == (slots, rest)
    ensures FillRow([token] + tokens, items) == ([slot] + slots, rest)
  {
    assert ([token] + tokens)[1..] == tokens;
  }

  /** Filling the token rows from their own printed form finds every text again. */
  lemma {:induction false} RefillGrid(slots: seq<seq<Slot>>)
    ensures FillRows(TokenRows(slots), GridItems(slots)) == slots
  {
    if slots == [] {
    } else {
      var row, tail := slots[0], slots[1..];
      RefillGrid(tail);
      RefillFirstRow(row, tail);
      assert slots == [row] + tail;
    }
  }

  lemma RefillFirstRow(row: seq<Slot>, tail: seq<seq<Slot>>)
    requires FillRows(TokenRows(tail), GridItems(tail)) == tail
    ensures FillRows(TokenRows([row] + tail), GridItems([row] + tail)) == [row] + tail
  {
    var slots, rest := [row] + tail, [Tok(Nl)] + GridItems(tail);
    assert slots[1..] == tail;
    TokenRowsStep(slots);
    assert GridItems(slots) == RowItems(row) + rest by { Assoc(RowItems(row), [Tok(Nl)], GridItems(tail)); }
    RefillRow(row, rest);
    assert SkipNl(rest) == GridItems(tail);
  }

  lemma TokensOfSlotGrid(t: seq<seq<TableCell>>, height: nat, width: nat)
    requires Tiling(t, height, width)
    ensures TokenGrid(t) == TokenRows(SlotGrid(t))
  {
    forall r | 0 <= r < height
      ensures TokenGrid(t)[r] == TokensOf(SlotGrid(t)[r])
    {
    }
  }

  lemma PaddedAlready(rows: seq<seq<Token>>, cols: nat)
    requires rows != [] && Rectangular(rows, cols)
    ensures MaxLength(rows) == cols && PadAll(rows) == rows
  {
    assert rows[0] in rows;
    forall r | 0 <= r < |rows|
      ensures PadAll(rows)[r] == rows[r]
    {
      assert rows[r] in rows;
      assert rows[r] + Padding(0) == rows[r];
    }
  }

  lemma SlotTextsNotBlank(t: seq<seq<TableCell>>, height: nat, width: nat)
    requires Tiling(t, height, width)
    ensures forall row | row in SlotGrid(t) :: NoBlankText(row)
  {
    forall row, slot | row in SlotGrid(t) && slot in row && slot.text.Some?
      ensures Strip(slot.text.value) != ""
    {
      var r :| 0 <= r < height && SlotGrid(t)[r] == row;
      var c :| 0 <= c < width && row[c] == slot;
      CornerInside(t, height, width, r, c);
    }
  }

  /** Splitting the printed form of a tiling into tokens, texts and rows gives back the grid it came from. */
  lemma PrintedFormSplits(t: seq<seq<TableCell>>, height: nat, width: nat)
    requires Tiling(t, height, width)
    ensures SplitRows(Tokens(PrintOtsl(t))) == TokenGrid(t)
    ensures MixedTexts(PrintOtsl(t)) == PrintOtsl(t)
    ensures FillRows(TokenGrid(t), PrintOtsl(t)) == SlotGrid(t)
  {
    TokensOfSlotGrid(t, height, width);
    SlotTextsNotBlank(t, height, width);
    GridTokens(SlotGrid(t));
    GridTexts(SlotGrid(t));
    TokenRowsAreLines(t, height, width);
    SplitLines(TokenGrid(t));
    RefillGrid(SlotGrid(t));
  }

  lemma TokenRowsAreLines(t: seq<seq<TableCell>>, height: nat, width: nat)
    requires Tiling(t, height, width)
    ensures forall row | row in TokenGrid(t) :: row != [] && forall token | token in row :: token != Nl
  {
    var rows := TokenGrid(t);
    TilingIsFilled(t, height, width);
    forall row | row in rows
      ensures row != [] && forall token | token in row :: token != Nl
    {
      var r :| 0 <= r < |rows| && rows[r] == row;
    }
  }

  /** Reading the printed form of any tiling finds its rectangles with their texts, row by row, and nothing else. */
  lemma OtslRoundTrip(t: seq<seq<TableCell>>, height: nat, width: nat)
    requires Tiling(t, height, width)
    ensures PadAll(SplitRows(Tokens(PrintOtsl(t)))) == TokenGrid(t)
    ensures ParsedCells(MixedTexts(PrintOtsl(t)), Tokens(PrintOtsl(t))) == Some(CornerCells(t, 0, 0))
  {
    PrintedFormSplits(t, height, width);
    TilingIsFilled(t, height, width);
    PaddedAlready(TokenGrid(t), width);
    TilesAreRead(t, height, width);
    FromTheTop(SlotGrid(t));
  }

  lemma FromTheTop(slots: seq<seq<Slot>>)
    requires slots != []
    ensures GridItems(slots) == Rest(slots, 0, 0)
  {
    assert slots[0][0..] == slots[0];
  }
}
