/** Reading a table written as OTSL tokens (MinerU/mineru/utils/format_utils.py). */
module Otsl {
  import opened Basics

  /** New line, full cell, empty cell, and the cells reached from the left, from above, or from both. */
  datatype Token = Nl | Full | Empty | Left | Up | Cross

  /** A piece of the input: a token, or the text between two tokens. */
  datatype Item = Tok(token: Token) | Text(text: string)

  datatype TableCell = TableCell(text: string, rowSpan: int, colSpan: int, startRow: int, startCol: int)

  /** Slot (r, c) lies in the rectangle of the cell. */
  predicate Covers(cell: TableCell, r: int, c: int) {
    cell.startRow <= r < cell.startRow + cell.rowSpan && cell.startCol <= c < cell.startCol + cell.colSpan
  }

  predicate StartsAt(cell: TableCell, r: int, c: int) {
    cell.startRow == r && cell.startCol == c
  }

  // ----- strings

  /** What Python counts as white space. */
  predicate IsSpace(c: char) {
    || c == ' ' || '\t' <= c <= '\r' || '\U{1C}' <= c <= '\U{1F}' || c == '\U{85}' || c == '\U{A0}'
    || c == '\U{1680}' || '\U{2000}' <= c <= '\U{200A}' || c == '\U{2028}' || c == '\U{2029}'
    || c == '\U{202F}' || c == '\U{205F}' || c == '\U{3000}'
  }

  function LStrip(s: string): string {
    if s != [] && IsSpace(s[0]) then LStrip(s[1..]) else s
  }

  function RStrip(s: string): string {
    if s != [] && IsSpace(s[|s| - 1]) then RStrip(s[..|s| - 1]) else s
  }

  function Strip(s: string): string {
    RStrip(LStrip(s))
  }

  ghost predicate Blank(s: string) {
    forall c | c in s :: IsSpace(c)
  }

  lemma {:induction false} LStripIs(s: string) returns (a: string)
    ensures Blank(a) && s == a + LStrip(s) && (LStrip(s) != [] ==> !IsSpace(LStrip(s)[0]))
  {
    if s != [] && IsSpace(s[0]) {
      a := LStripIs(s[1..]);
      a := [s[0]] + a;
    } else {
      a := [];
    }
  }

  lemma {:induction false} RStripIs(s: string) returns (b: string)
    ensures Blank(b) && s == RStrip(s) + b && (RStrip(s) != [] ==> !IsSpace(RStrip(s)[|RStrip(s)| - 1]))
  {
    if s != [] && IsSpace(s[|s| - 1]) {
      b := RStripIs(s[..|s| - 1]);
      LastSplit(s);
      b := b + [s[|s| - 1]];
    } else {
      b := [];
    }
  }

  /** Only white space is taken off, and none is left at either end. */
  lemma StripIs(s: string) returns (a: string, b: string)
    ensures Blank(a) && Blank(b) && s == a + Strip(s) + b
    ensures Strip(s) != [] ==> !IsSpace(Strip(s)[0]) && !IsSpace(Strip(s)[|Strip(s)| - 1])
  {
    a := LStripIs(s);
    b := RStripIs(LStrip(s));
    Assoc(a, Strip(s), b);
  }

  function Spelling(item: Item): string {
    match item
    case Text(s) => s
    case Tok(Nl) => "<nl>"
    case Tok(Full) => "<fcel>"
    case Tok(Empty) => "<ecel>"
    case Tok(Left) => "<lcel>"
    case Tok(Up) => "<ucel>"
    case Tok(Cross) => "<xcel>"
  }

  // ----- splitting the input

  function Tokens(stream: seq<Item>): seq<Token> {
    if stream == [] then []
    else (if stream[0].Tok? then [stream[0].token] else []) + Tokens(stream[1..])
  }

  /** The tokens and the texts that are not blank. */
  function MixedTexts(stream: seq<Item>): seq<Item> {
    if stream == [] then []
    else (if stream[0].Text? && Strip(stream[0].text) == "" then [] else [stream[0]]) + MixedTexts(stream[1..])
  }

  lemma BlankIsStripped(s: string)
    ensures Strip(s) == "" <==> Blank(s)
  {
    var a, b := StripIs(s);
    if Strip(s) != "" {
      assert s[|a|] == Strip(s)[0];
    } else {
      assert s == a + b;
    }
  }

  function LineLength(tokens: seq<Token>): (n: nat)
    ensures n <= |tokens|
    ensures forall k | 0 <= k < n :: tokens[k] != Nl
    ensures n < |tokens| ==> tokens[n] == Nl
  {
    if tokens == [] || tokens[0] == Nl then 0 else 1 + LineLength(tokens[1..])
  }

  /** The maximal runs without new lines; runs of new lines leave no empty row. */
  function SplitRows(tokens: seq<Token>): seq<seq<Token>> {
    if tokens == [] then []
    else if tokens[0] == Nl then SplitRows(tokens[1..])
    else
      var n := LineLength(tokens);
      [tokens[..n]] + SplitRows(tokens[n..])
  }

  function MaxLength(rows: seq<seq<Token>>): (n: nat)
    ensures forall row | row in rows :: |row| <= n
    ensures n == 0 || exists row | row in rows :: |row| == n
  {
    if rows == [] then 0
    else
      var rest := MaxLength(rows[1..]);
      assert rows == [rows[0]] + rows[1..];
      if |rows[0]| > rest then |rows[0]| else rest
  }

  function Padding(n: nat): seq<Token> {
    seq(n, _ => Empty)
  }

  ghost predicate Rectangular(rows: seq<seq<Token>>, cols: nat) {
    forall row | row in rows :: |row| == cols
  }

  /** Shorter rows are filled up with empty cells. */
  function PadTo(rows: seq<seq<Token>>, cols: nat): seq<seq<Token>>
    requires forall row | row in rows :: |row| <= cols
  {
    seq(|rows|, r requires 0 <= r < |rows| => assert rows[r] in rows; rows[r] + Padding(cols - |rows[r]|))
  }

  function PadAll(rows: seq<seq<Token>>): (padded: seq<seq<Token>>)
    ensures Rectangular(padded, MaxLength(rows)) && |padded| == |rows|
  {
    PadTo(rows, MaxLength(rows))
  }

  lemma PadToAt(rows: seq<seq<Token>>, cols: nat, r: nat)
    requires r < |rows| && forall row | row in rows :: |row| <= cols
    ensures |rows[r]| <= cols && |PadTo(rows, cols)| == |rows|
    ensures PadTo(rows, cols)[r] == rows[r] + Padding(cols - |rows[r]|)
  {
    assert rows[r] in rows;
  }

  method PadRow(row: seq<Token>, cols: nat) returns (padded: seq<Token>)
    requires |row| <= cols
    ensures padded == row + Padding(cols - |row|)
  {
    padded := row;
    while |padded| < cols
      invariant |row| <= |padded| <= cols && padded == row + Padding(|padded| - |row|)
    {
      ghost var more := Padding(|padded| - |row|);
      assert Padding(|padded| + 1 - |row|) == more + [Empty];
      Assoc(row, more, [Empty]);
      padded := padded + [Empty];
    }
  }

  method PadRows(rows: seq<seq<Token>>) returns (padded: seq<seq<Token>>)
    ensures padded == PadAll(rows)
  {
    var maxCols := MaxLength(rows);
    padded := rows;
    for r := 0 to |rows|
      invariant |padded| == |rows|
      invariant forall k | r <= k < |rows| :: padded[k] == rows[k]
      invariant forall k | 0 <= k < r :: padded[k] == PadTo(rows, maxCols)[k]
    {
      PadToAt(rows, maxCols, r);
      var row := PadRow(padded[r], maxCols);
      padded := padded[r := row];
    }
  }

  // ----- giving every token its text

  /** A token of the padded grid with the text found behind it, if any. */
  datatype Slot = Slot(token: Token, text: Option<string>)

  /** A token takes the head of the input if it matches, and the text behind it; otherwise it takes nothing. */
  function FillSlot(token: Token, texts: seq<Item>): (res: (Slot, seq<Item>))
    ensures res.0.token == token
  {
    if texts != [] && texts[0] == Tok(token) then
      if |texts| > 1 && texts[1].Text? then (Slot(token, Some(texts[1].text)), texts[2..])
      else (Slot(token, None), texts[1..])
    else (Slot(token, None), texts)
  }

  /** The slots of one row, and the input left over. */
  function FillRow(row: seq<Token>, texts: seq<Item>): (res: (seq<Slot>, seq<Item>))
    ensures |res.0| == |row| && forall c | 0 <= c < |row| :: res.0[c].token == row[c]
  {
    if row == [] then ([], texts)
    else
      var (slot, rest) := FillSlot(row[0], texts);
      var (slots, left) := FillRow(row[1..], rest);
      ([slot] + slots, left)
  }

  function SkipNl(texts: seq<Item>): seq<Item> {
    if texts != [] && texts[0] == Tok(Nl) then texts[1..] else texts
  }

  function FillRows(rows: seq<seq<Token>>, texts: seq<Item>): (slots: seq<seq<Slot>>)
    ensures |slots| == |rows|
    ensures forall r | 0 <= r < |rows| ::
      |slots[r]| == |rows[r]| && forall c | 0 <= c < |rows[r]| :: slots[r][c].token == rows[r][c]
  {
    if rows == [] then []
    else
      var (slots, rest) := FillRow(rows[0], texts);
      [slots] + FillRows(rows[1..], SkipNl(rest))
  }

  function SlotItems(slot: Slot): seq<Item> {
    [Tok(slot.token)] + if slot.text.Some? then [Text(slot.text.value)] else []
  }

  function RowItems(slots: seq<Slot>): seq<Item> {
    if slots == [] then [] else SlotItems(slots[0]) + RowItems(slots[1..])
  }

  /** The rebuilt input: the slots row by row, a new line behind each row. */
  function GridItems(slots: seq<seq<Slot>>): seq<Item> {
    if slots == [] then [] else RowItems(slots[0]) + [Tok(Nl)] + GridItems(slots[1..])
  }

  lemma GridItemsAt(rows: seq<seq<Token>>, r: nat, texts: seq<Item>)
    requires r < |rows|
    ensures var (slots, rest) := FillRow(rows[r], texts);
      GridItems(FillRows(rows[r..], texts)) ==
        RowItems(slots) + [Tok(Nl)] + GridItems(FillRows(rows[r + 1..], SkipNl(rest)))
  {
    var (slots, rest) := FillRow(rows[r], texts);
    assert rows[r..][0] == rows[r] && rows[r..][1..] == rows[r + 1..];
    var tail := FillRows(rows[r + 1..], SkipNl(rest));
    assert ([slots] + tail)[1..] == tail;
  }

  lemma RowItemsAt(row: seq<Token>, c: nat, texts: seq<Item>)
    requires c < |row|
    ensures var (slot, rest) := FillSlot(row[c], texts);
      && RowItems(FillRow(row[c..], texts).0) == SlotItems(slot) + RowItems(FillRow(row[c + 1..], rest).0)
      && FillRow(row[c..], texts).1 == FillRow(row[c + 1..], rest).1
  {
    var (slot, rest) := FillSlot(row[c], texts);
    assert row[c..][0] == row[c] && row[c..][1..] == row[c + 1..];
    var tail := FillRow(row[c + 1..], rest).0;
    assert ([slot] + tail)[1..] == tail;
  }

  method FillTexts(rows: seq<seq<Token>>, texts: seq<Item>) returns (newTexts: seq<Item>)
    ensures newTexts == GridItems(FillRows(rows, texts))
  {
    newTexts := [];
    var textIdx := 0;
    ghost var whole := GridItems(FillRows(rows, texts));
    for r := 0 to |rows|
      invariant textIdx <= |texts|
      invariant whole == newTexts + GridItems(FillRows(rows[r..], texts[textIdx..]))
    {
      GridItemsAt(rows, r, texts[textIdx..]);
      ghost var rest := FillRow(rows[r], texts[textIdx..]).1;
      var items;
      items, textIdx := FillRowTexts(rows[r], texts, textIdx);
      if textIdx < |texts| && texts[textIdx] == Tok(Nl) {
        textIdx := textIdx + 1;
      }
      assert texts[textIdx..] == SkipNl(rest);
      Assoc(newTexts, items + [Tok(Nl)], GridItems(FillRows(rows[r + 1..], texts[textIdx..])));
      newTexts := newTexts + (items + [Tok(Nl)]);
    }
  }

  method FillRowTexts(row: seq<Token>, texts: seq<Item>, start: nat) returns (items: seq<Item>, textIdx: nat)
    requires start <= |texts|
    ensures textIdx <= |texts|
    ensures items == RowItems(FillRow(row, texts[start..]).0) && texts[textIdx..] == FillRow(row, texts[start..]).1
  {
    items, textIdx := [], start;
    ghost var whole := FillRow(row, texts[start..]);
    assert row[0..] == row;
    for c := 0 to |row|
      invariant textIdx <= |texts|
      invariant RowItems(whole.0) == items + RowItems(FillRow(row[c..], texts[textIdx..]).0)
      invariant whole.1 == FillRow(row[c..], texts[textIdx..]).1
    {
      RowItemsAt(row, c, texts[textIdx..]);
      var slotItems;
      slotItems, textIdx := FillSlotText(row[c], texts, textIdx);
      Assoc(items, slotItems, RowItems(FillRow(row[c + 1..], texts[textIdx..]).0));
      items := items + slotItems;
    }
  }

  method FillSlotText(token: Token, texts: seq<Item>, start: nat) returns (items: seq<Item>, textIdx: nat)
    requires start <= |texts|
    ensures textIdx <= |texts|
    ensures items == SlotItems(FillSlot(token, texts[start..]).0)
    ensures texts[textIdx..] == FillSlot(token, texts[start..]).1
  {
    items, textIdx := [Tok(token)], start;
    if textIdx < |texts| && texts[textIdx] == Tok(token) {
      textIdx := textIdx + 1;
      if textIdx < |texts| && texts[textIdx].Text? {
        items := items + [texts[textIdx]];
        textIdx := textIdx + 1;
      }
    }
  }

  // ----- spans

  predicate ReachesRight(token: Token) {
    token == Left || token == Cross
  }

  predicate ReachesDown(token: Token) {
    token == Up || token == Cross
  }

  function RunRight(row: seq<Token>, c: nat): nat
    decreases |row| - c
  {
    if c < |row| && ReachesRight(row[c]) then 1 + RunRight(row, c + 1) else 0
  }

  function RunDown(rows: seq<seq<Token>>, r: nat, c: nat): nat
    requires forall row | row in rows :: c < |row|
    decreases |rows| - r
  {
    if r < |rows| && ReachesDown(rows[r][c]) then 1 + RunDown(rows, r + 1, c) else 0
  }

  method CountRight(rows: seq<seq<Token>>, r: nat, c: nat) returns (span: nat)
    requires r < |rows| && c < |rows[r]|
    ensures span == RunRight(rows[r], c)
  {
    span := 0;
    var cIter := c;
    while ReachesRight(rows[r][cIter])
      invariant c <= cIter < |rows[r]|
      invariant RunRight(rows[r], c) == span + RunRight(rows[r], cIter)
      decreases |rows[r]| - cIter
    {
      cIter := cIter + 1;
      span := span + 1;
      if cIter >= |rows[r]| {
        return;
      }
    }
  }

  method CountDown(rows: seq<seq<Token>>, r: nat, c: nat) returns (span: nat)
    requires r < |rows| && forall row | row in rows :: c < |row|
    ensures span == RunDown(rows, r, c)
  {
    span := 0;
    var rIter := r;
    while ReachesDown(rows[rIter][c])
      invariant r <= rIter < |rows|
      invariant RunDown(rows, r, c) == span + RunDown(rows, rIter, c)
      decreases |rows| - rIter
    {
      rIter := rIter + 1;
      span := span + 1;
      if rIter >= |rows| {
        return;
      }
    }
  }

  // ----- emitting cells

  predicate StartsCell(item: Item) {
    item == Tok(Full) || item == Tok(Empty)
  }

  /** The cell that starts at the first item, at (r, c) of the grid; None stands for an index error. */
  function CellAt(items: seq<Item>, rows: seq<seq<Token>>, cols: nat, r: nat, c: nat): Option<TableCell>
    requires items != [] && StartsCell(items[0]) && Rectangular(rows, cols)
  {
    var offset := if items[0] == Tok(Full) then 2 else 1;
    if items[0] == Tok(Full) && |items| == 1 then None
    else
      var text := if items[0] == Tok(Full) then Spelling(items[1]) else "";
      var right := offset < |items| && items[offset].Tok? && ReachesRight(items[offset].token);
      var down := r + 1 < |rows| && c < |rows[r + 1]| && ReachesDown(rows[r + 1][c]);
      if right && (r >= |rows| || c + 1 >= |rows[r]|) then None
      else
        var colSpan := 1 + if right then RunRight(rows[r], c + 1) else 0;
        var rowSpan := 1 + if down then RunDown(rows, r + 1, c) else 0;
        Some(TableCell(Strip(text), rowSpan, colSpan, r, c))
  }

  /** The cells of the remaining items, from position (r, c) of the grid on. */
  function ParseFrom(items: seq<Item>, rows: seq<seq<Token>>, cols: nat, r: nat, c: nat): Option<seq<TableCell>>
    requires Rectangular(rows, cols)
    decreases |items|
  {
    if items == [] then Some([])
    else if items[0].Text? then ParseFrom(items[1..], rows, cols, r, c)
    else if items[0] == Tok(Nl) then ParseFrom(items[1..], rows, cols, r + 1, 0)
    else if !StartsCell(items[0]) then ParseFrom(items[1..], rows, cols, r, c + 1)
    else
      var cell := CellAt(items, rows, cols, r, c);
      if cell.None? then None else Prepend([cell.value], ParseFrom(items[1..], rows, cols, r, c + 1))
  }

  function Prepend(cells: seq<TableCell>, rest: Option<seq<TableCell>>): Option<seq<TableCell>> {
    if rest.None? then None else Some(cells + rest.value)
  }

  lemma PrependLaws(a: seq<TableCell>, b: seq<TableCell>, rest: Option<seq<TableCell>>)
    ensures Prepend([], rest) == rest
    ensures Prepend(a, Prepend(b, rest)) == Prepend(a + b, rest)
    ensures Prepend(a, Some([])) == Some(a)
  {
    assert a + [] == a;
    if rest.Some? {
      assert [] + rest.value == rest.value;
      assert a + (b + rest.value) == a + b + rest.value;
    }
  }

  method ParseItems(items: seq<Item>, rows: seq<seq<Token>>, cols: nat) returns (result: Option<seq<TableCell>>)
    requires Rectangular(rows, cols)
    ensures result == ParseFrom(items, rows, cols, 0, 0)
  {
    var cells: seq<TableCell> := [];
    var r, c := 0, 0;
    ghost var whole := ParseFrom(items, rows, cols, 0, 0);
    assert items[0..] == items;
    PrependLaws([], [], whole);
    for i := 0 to |items|
      invariant whole == Prepend(cells, ParseFrom(items[i..], rows, cols, r, c))
    {
      var item := items[i];
      assert items[i..][1..] == items[i + 1..];
      if StartsCell(item) {
        var cell := ReadCell(items, i, rows, cols, r, c);
        if cell.None? {
          return None;
        }
        PrependLaws(cells, [cell.value], ParseFrom(items[i + 1..], rows, cols, r, c + 1));
        cells := cells + [cell.value];
        assert items[i..][0] == item;
      }
      if item.Tok? && item.token != Nl {
        c := c + 1;
      }
      if item == Tok(Nl) {
        r, c := r + 1, 0;
      }
    }
    PrependLaws(cells, [], None);
    return Some(cells);
  }

  method ReadCell(items: seq<Item>, i: nat, rows: seq<seq<Token>>, cols: nat, r: nat, c: nat)
    returns (cell: Option<TableCell>)
    requires i < |items| && StartsCell(items[i]) && Rectangular(rows, cols)
    ensures cell == CellAt(items[i..], rows, cols, r, c)
  {
    ghost var here := items[i..];
    var rowSpan, colSpan := 1, 1;
    var rightOffset := 1;
    var cellText := "";
    if items[i] != Tok(Empty) {
      if i + 1 >= |items| {
        return None;
      }
      cellText := Spelling(items[i + 1]);
      rightOffset := 2;
    }
    if i + rightOffset < |items| && items[i + rightOffset].Tok? && ReachesRight(items[i + rightOffset].token) {
      assert here[rightOffset] == items[i + rightOffset];
      if r >= |rows| || c + 1 >= |rows[r]| {
        return None;
      }
      var right := CountRight(rows, r, c + 1);
      colSpan := colSpan + right;
    }
    if r + 1 < |rows| && c < |rows[r + 1]| && ReachesDown(rows[r + 1][c]) {
      var down := CountDown(rows, r + 1, c);
      rowSpan := rowSpan + down;
    }
    return Some(TableCell(Strip(cellText), rowSpan, colSpan, r, c));
  }

  /** The cells of texts and tokens over the padded rows; None where the code fails with an index error. */
  function ParsedCells(texts: seq<Item>, tokens: seq<Token>): Option<seq<TableCell>> {
    var rows := PadAll(SplitRows(tokens));
    ParseFrom(if rows == [] then texts else GridItems(FillRows(rows, texts)), rows, MaxLength(SplitRows(tokens)), 0, 0)
  }

  method ParseTexts(texts: seq<Item>, tokens: seq<Token>) returns (cells: Option<seq<TableCell>>, rows: seq<seq<Token>>)
    ensures rows == PadAll(SplitRows(tokens))
    ensures cells == ParsedCells(texts, tokens)
  {
    var split := SplitRows(tokens);
    rows := PadRows(split);
    var newTexts := texts;
    if rows != [] {
      newTexts := FillTexts(rows, texts);
    }
    cells := ParseItems(newTexts, rows, MaxLength(split));
  }
}
