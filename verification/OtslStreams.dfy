/** When reading OTSL fails, told from the input itself (MinerU/mineru/utils/format_utils.py). */
module OtslStreams {
  import opened Basics
  import opened Otsl
  import opened OtslRoundTrip

  predicate IsCell(item: Item) {
    item.Tok? && item.token != Nl
  }

  /** Every text stands right behind the token of a cell, and no new line stands first or behind another. */
  ghost predicate Orderly(items: seq<Item>) {
    forall k | 0 <= k < |items| :: InPlace(items, k)
  }

  ghost predicate InPlace(items: seq<Item>, k: nat)
    requires k < |items|
  {
    && (items[k].Text? ==> k > 0 && IsCell(items[k - 1]))
    && (items[k] == Tok(Nl) ==> k > 0 && items[k - 1] != Tok(Nl))
  }

  /** The same, but the items may continue a line that has begun. */
  ghost predicate Continues(items: seq<Item>) {
    (items != [] ==> items[0].Tok?) && forall k | 0 < k < |items| :: InPlace(items, k)
  }

  /** The lines of an input: tokens with their texts. A new line at the end leaves an empty line behind it. */
  function Lines(items: seq<Item>): (lines: seq<seq<Slot>>)
    ensures lines != []
  {
    if items == [] then [[]]
    else if items[0] == Tok(Nl) then [[]] + Lines(items[1..])
    else if items[0].Text? then Lines(items[1..])
    else
      var text := if |items| > 1 && items[1].Text? then Some(items[1].text) else None;
      var rest := Lines(items[if text.Some? then 2 else 1..]);
      [[Slot(items[0].token, text)] + rest[0]] + rest[1..]
  }

  /** The lines that hold something. */
  function SlotRows(items: seq<Item>): seq<seq<Slot>> {
    var lines := Lines(items);
    if lines[|lines| - 1] == [] then lines[..|lines| - 1] else lines
  }

  /** A line of full length ends in a full cell without text, and the next line begins with a left or cross cell. */
  ghost predicate RunsOver(rows: seq<seq<Slot>>, r: nat) {
    && r + 1 < |rows| && rows[r] != [] && rows[r + 1] != []
    && (forall k | 0 <= k < |rows| :: |rows[k]| <= |rows[r]|)
    && rows[r][|rows[r]| - 1] == Slot(Full, None)
    && ReachesRight(rows[r + 1][0].token)
  }

  // ----- the lines spell the input

  function Written(lines: seq<seq<Slot>>): seq<Item>
    requires lines != []
  {
    if |lines| == 1 then RowItems(lines[0]) else RowItems(lines[0]) + [Tok(Nl)] + Written(lines[1..])
  }

  lemma WrittenFirst(slot: Slot, first: seq<Slot>, rest: seq<seq<Slot>>)
    ensures Written([[slot] + first] + rest) == SlotItems(slot) + Written([first] + rest)
  {
    assert ([slot] + first)[1..] == first;
    assert ([[slot] + first] + rest)[1..] == rest && ([first] + rest)[1..] == rest;
    if rest != [] {
      Assoc(SlotItems(slot), RowItems(first), [Tok(Nl)]);
      Assoc(SlotItems(slot), RowItems(first) + [Tok(Nl)], Written(rest));
    }
  }

  lemma ContinuesTail(items: seq<Item>, n: nat)
    requires Continues(items) && n <= |items| && (n < |items| ==> items[n].Tok?)
    ensures Continues(items[n..])
  {
    forall k | 0 < k < |items[n..]|
      ensures InPlace(items[n..], k)
    {
      assert InPlace(items, n + k);
    }
  }

  lemma {:induction false} LinesSpell(items: seq<Item>)
    requires Continues(items)
    ensures Written(Lines(items)) == items
    decreases |items|
  {
    if items == [] {
    } else if items[0] == Tok(Nl) {
      assert |items| > 1 ==> InPlace(items, 1);
      ContinuesTail(items, 1);
      LinesSpell(items[1..]);
      assert Lines(items)[1..] == Lines(items[1..]);
    } else {
      var n := if |items| > 1 && items[1].Text? then 2 else 1;
      assert n < |items| ==> InPlace(items, n);
      ContinuesTail(items, n);
      LinesSpell(items[n..]);
      var slot := Slot(items[0].token, if n == 2 then Some(items[1].text) else None);
      assert items == SlotItems(slot) + items[n..];
      SlotSpells(slot, items[n..]);
    }
  }

  lemma LinesOfSlot(slot: Slot, rest: seq<Item>)
    requires slot.token != Nl && (rest != [] ==> rest[0].Tok?)
    ensures Lines(SlotItems(slot) + rest) == [[slot] + Lines(rest)[0]] + Lines(rest)[1..]
  {
    var items := SlotItems(slot) + rest;
    if slot.text.Some? {
      assert items[1] == Text(slot.text.value) && items[2..] == rest;
    } else {
      assert items[1..] == rest && (|items| > 1 ==> items[1] == rest[0]);
    }
  }

  lemma SlotSpells(slot: Slot, rest: seq<Item>)
    requires slot.token != Nl && (rest != [] ==> rest[0].Tok?) && Written(Lines(rest)) == rest
    ensures Written(Lines(SlotItems(slot) + rest)) == SlotItems(slot) + rest
  {
    var lines := Lines(rest);
    LinesOfSlot(slot, rest);
    WrittenFirst(slot, lines[0], lines[1..]);
    assert [lines[0]] + lines[1..] == lines;
  }

  lemma {:induction false} LinesNotEmpty(items: seq<Item>)
    requires Continues(items)
    ensures items != [] && items[0] != Tok(Nl) ==> Lines(items)[0] != []
    ensures forall r | 0 < r < |Lines(items)| - 1 :: Lines(items)[r] != []
    ensures forall r, c | 0 <= r < |Lines(items)| && 0 <= c < |Lines(items)[r]| :: Lines(items)[r][c].token != Nl
    decreases |items|
  {
    if items == [] {
    } else if items[0] == Tok(Nl) {
      assert |items| > 1 ==> InPlace(items, 1);
      ContinuesTail(items, 1);
      LinesNotEmpty(items[1..]);
    } else {
      var n := if |items| > 1 && items[1].Text? then 2 else 1;
      assert n < |items| ==> InPlace(items, n);
      ContinuesTail(items, n);
      LinesNotEmpty(items[n..]);
    }
  }

  /** The rows with a new line behind each one are the input, up to a new line at the very end. */
  ghost predicate Spells(items: seq<Item>, rows: seq<seq<Slot>>) {
    items == GridItems(rows) || items + [Tok(Nl)] == GridItems(rows)
  }

  lemma {:induction false} WrittenIsGrid(lines: seq<seq<Slot>>)
    requires lines != []
    ensures Written(lines) + [Tok(Nl)] == GridItems(lines)
    ensures lines[|lines| - 1] == [] ==> Written(lines) == GridItems(lines[..|lines| - 1])
  {
    if |lines| == 1 {
      assert lines[1..] == [] && lines[..0] == [];
    } else {
      var head, tail := RowItems(lines[0]) + [Tok(Nl)], lines[1..];
      WrittenIsGrid(tail);
      Assoc(head, Written(tail), [Tok(Nl)]);
      var init := lines[..|lines| - 1];
      assert init[0] == lines[0] && init[1..] == tail[..|tail| - 1];
    }
  }

  /** Every row is a line with at least one token, none of them a new line. */
  ghost predicate RealRows(rows: seq<seq<Slot>>) {
    && (forall r | 0 <= r < |rows| :: rows[r] != [])
    && (forall r, c | 0 <= r < |rows| && 0 <= c < |rows[r]| :: rows[r][c].token != Nl)
  }

  lemma RowsSpell(items: seq<Item>)
    requires Orderly(items)
    ensures Spells(items, SlotRows(items)) && RealRows(SlotRows(items))
  {
    assert Continues(items) && (items != [] ==> items[0] != Tok(Nl)) by { assert items != [] ==> InPlace(items, 0); }
    assert Spells(items, SlotRows(items)) by {
      LinesSpell(items);
      WrittenIsGrid(Lines(items));
    }
    FullLinesAreReal(items);
  }

  lemma FullLinesAreReal(items: seq<Item>)
    requires Continues(items) && (items != [] ==> items[0] != Tok(Nl))
    ensures RealRows(SlotRows(items))
  {
    LinesNotEmpty(items);
    var lines := Lines(items);
    assert items == [] ==> lines == [[]];
  }

  // ----- the rows are found again

  lemma {:induction false} SplitTrailingNl(tokens: seq<Token>)
    ensures SplitRows(tokens + [Nl]) == SplitRows(tokens)
    decreases |tokens|
  {
    if tokens == [] {
      assert SplitRows([Nl]) == SplitRows([Nl][1..]);
    } else if tokens[0] == Nl {
      FirstOfAppend(tokens, [Nl]);
      SplitTrailingNl(tokens[1..]);
    } else {
      var n := LineLength(tokens);
      LineLengthBefore(tokens);
      SplitTrailingNl(tokens[n..]);
      assert (tokens + [Nl])[..n] == tokens[..n] && (tokens + [Nl])[n..] == tokens[n..] + [Nl];
    }
  }

  lemma {:induction false} LineLengthBefore(tokens: seq<Token>)
    ensures LineLength(tokens + [Nl]) == LineLength(tokens)
  {
    if tokens == [] || tokens[0] == Nl {
      assert (tokens + [Nl])[0] == Nl;
    } else {
      FirstOfAppend(tokens, [Nl]);
      LineLengthBefore(tokens[1..]);
    }
  }

  lemma RealTokenRows(rows: seq<seq<Slot>>)
    requires RealRows(rows)
    ensures forall row | row in TokenRows(rows) :: row != [] && forall token | token in row :: token != Nl
  {
    forall row | row in TokenRows(rows)
      ensures row != [] && forall token | token in row :: token != Nl
    {
      var r :| 0 <= r < |rows| && TokenRows(rows)[r] == row;
      assert row == TokensOf(rows[r]) && rows[r] != [];
    }
  }

  lemma TokensSplit(items: seq<Item>, rows: seq<seq<Slot>>)
    requires Spells(items, rows) && RealRows(rows)
    ensures SplitRows(Tokens(items)) == TokenRows(rows)
  {
    GridTokens(rows);
    RealTokenRows(rows);
    SplitLines(TokenRows(rows));
    if items != GridItems(rows) {
      TokensAppend(items, [Tok(Nl)]);
      assert Tokens([Tok(Nl)]) == [Nl];
      SplitTrailingNl(Tokens(items));
    }
  }

  function Blanks(n: nat): seq<Slot> {
    seq(n, _ => Slot(Empty, None))
  }

  /** A row that is filled up to cols slots. */
  function PadSlots(row: seq<Slot>, cols: nat): seq<Slot> {
    if |row| <= cols then row + Blanks(cols - |row|) else row
  }

  function PadGrid(rows: seq<seq<Slot>>, cols: nat): seq<seq<Slot>> {
    if rows == [] then [] else [PadSlots(rows[0], cols)] + PadGrid(rows[1..], cols)
  }

  lemma {:induction false} PadGridAt(rows: seq<seq<Slot>>, cols: nat, r: nat)
    requires r < |rows|
    ensures |PadGrid(rows, cols)| == |rows| && PadGrid(rows, cols)[r] == PadSlots(rows[r], cols)
    decreases |rows|
  {
    var tail := rows[1..];
    if |tail| == 0 {
    } else {
      PadGridAt(tail, cols, if r == 0 then 0 else r - 1);
    }
  }

  /** The token rows of a grid, filled up with empty cells. */
  ghost predicate PaddedRows(rows: seq<seq<Slot>>, padded: seq<seq<Token>>, cols: nat) {
    && |padded| == |rows|
    && forall r | 0 <= r < |rows| ::
         |rows[r]| <= cols && padded[r] == TokensOf(rows[r]) + Padding(cols - |rows[r]|)
  }

  lemma {:induction false} FillAppend(a: seq<Token>, b: seq<Token>, texts: seq<Item>)
    ensures FillRow(a + b, texts) ==
      var (first, rest) := FillRow(a, texts);
      var (second, left) := FillRow(b, rest);
      (first + second, left)
  {
    if a == [] {
      assert a + b == b;
      assert [] + FillRow(b, texts).0 == FillRow(b, texts).0;
    } else {
      FirstOfAppend(a, b);
      var (slot, rest) := FillSlot(a[0], texts);
      FillAppend(a[1..], b, rest);
      var (first, left) := FillRow(a[1..], rest);
      Assoc([slot], first, FillRow(b, left).0);
    }
  }

  /** Padding takes nothing from an input that is at a new line or at its end. */
  lemma {:induction false} FillPadding(n: nat, rest: seq<Item>)
    requires rest == [] || rest[0] == Tok(Nl)
    ensures FillRow(Padding(n), rest) == (Blanks(n), rest)
  {
    if n == 0 {
    } else {
      FillPadding(n - 1, rest);
      assert Padding(n)[0] == Empty && Padding(n)[1..] == Padding(n - 1);
      assert Blanks(n) == [Slot(Empty, None)] + Blanks(n - 1);
    }
  }

  /** What is left behind the first row begins with its new line, if there is one. */
  lemma SpellsStep(items: seq<Item>, row: seq<Slot>, tail: seq<seq<Slot>>) returns (rest: seq<Item>)
    requires Spells(items, [row] + tail)
    ensures items == RowItems(row) + rest && (rest == [] || rest[0] == Tok(Nl))
    ensures Spells(SkipNl(rest), tail)
  {
    var line := RowItems(row) + [Tok(Nl)];
    assert ([row] + tail)[1..] == tail;
    assert GridItems([row] + tail) == line + GridItems(tail);
    if items == GridItems([row] + tail) {
      rest := [Tok(Nl)] + GridItems(tail);
      Assoc(RowItems(row), [Tok(Nl)], GridItems(tail));
      assert rest[1..] == GridItems(tail);
    } else if tail == [] {
      rest := [];
      assert items + [Tok(Nl)] == line;
      assert items == (items + [Tok(Nl)])[..|items|] && RowItems(row) == line[..|line| - 1];
    } else {
      var later := GridItems(tail);
      rest := [Tok(Nl)] + later[..|later| - 1];
      assert rest[1..] == later[..|later| - 1];
      LastOfAppend(line, later);
      assert items == (items + [Tok(Nl)])[..|items|];
      Assoc(RowItems(row), [Tok(Nl)], later[..|later| - 1]);
      assert later[|later| - 1] == Tok(Nl) && later == later[..|later| - 1] + [Tok(Nl)];
    }
  }

  lemma FillPaddedRow(row: seq<Slot>, n: nat, rest: seq<Item>)
    requires rest == [] || rest[0] == Tok(Nl)
    ensures FillRow(TokensOf(row) + Padding(n), RowItems(row) + rest) == (row + Blanks(n), rest)
  {
    FillAppend(TokensOf(row), Padding(n), RowItems(row) + rest);
    RefillRow(row, rest);
    FillPadding(n, rest);
  }

  /** Every slot of the padded grid has the text that the line has there, and padding has none. */
  lemma {:induction false} PaddedRefill(items: seq<Item>, rows: seq<seq<Slot>>, padded: seq<seq<Token>>, cols: nat)
    requires Spells(items, rows) && PaddedRows(rows, padded, cols)
    ensures FillRows(padded, items) == PadGrid(rows, cols)
    decreases |rows|
  {
    if rows == [] {
    } else {
      var row, tail := rows[0], rows[1..];
      assert rows == [row] + tail;
      var rest := SpellsStep(items, row, tail);
      PaddedRefill(SkipNl(rest), tail, padded[1..], cols);
      FillPaddedRow(row, cols - |row|, rest);
    }
  }

  lemma PadAllAt(split: seq<seq<Token>>, r: nat)
    requires r < |split|
    ensures |split[r]| <= MaxLength(split) && |PadAll(split)| == |split|
    ensures PadAll(split)[r] == split[r] + Padding(MaxLength(split) - |split[r]|)
  {
    var n := MaxLength(split);
    assert |split[r]| <= n && |PadTo(split, n)| == |split| by { PadToAt(split, n, r); }
    assert PadTo(split, n)[r] == split[r] + Padding(n - |split[r]|) by { PadToAt(split, n, r); }
    assert PadAll(split) == PadTo(split, n);
  }

  lemma PaddedRowAt(rows: seq<seq<Slot>>, r: nat)
    requires r < |rows|
    ensures |rows[r]| <= MaxLength(TokenRows(rows)) && |PadAll(TokenRows(rows))| == |rows|
    ensures PadAll(TokenRows(rows))[r] == TokensOf(rows[r]) + Padding(MaxLength(TokenRows(rows)) - |rows[r]|)
  {
    var split := TokenRows(rows);
    assert split[r] == TokensOf(rows[r]);
    assert |split[r]| == |rows[r]| && |split| == |rows|;
    PadAllAt(split, r);
  }

  lemma PadAllIsPadded(rows: seq<seq<Slot>>)
    ensures PaddedRows(rows, PadAll(TokenRows(rows)), MaxLength(TokenRows(rows)))
  {
    forall r | 0 <= r < |rows|
      ensures |rows[r]| <= MaxLength(TokenRows(rows))
      ensures PadAll(TokenRows(rows))[r] == TokensOf(rows[r]) + Padding(MaxLength(TokenRows(rows)) - |rows[r]|)
    {
      PaddedRowAt(rows, r);
    }
  }

  // ----- when reading fails

  lemma {:induction false} TokensOfMixed(stream: seq<Item>)
    ensures Tokens(MixedTexts(stream)) == Tokens(stream)
  {
    if stream == [] {
    } else {
      TokensOfMixed(stream[1..]);
      var head := if stream[0].Text? && Strip(stream[0].text) == "" then [] else [stream[0]];
      TokensAppend(head, MixedTexts(stream[1..]));
      if head == [] {
        assert [] + Tokens(stream[1..]) == Tokens(stream[1..]);
      } else {
        assert head[1..] == [] && Tokens(head) == if stream[0].Tok? then [stream[0].token] else [];
      }
    }
  }

  lemma {:induction false} NothingStarts(items: seq<Item>, rows: seq<seq<Token>>, cols: nat, r: nat, c: nat)
    requires Rectangular(rows, cols) && forall item | item in items :: !StartsCell(item)
    ensures ParseFrom(items, rows, cols, r, c) == Some([])
    decreases |items|
  {
    if items == [] {
    } else {
      assert items[0] in items && forall item | item in items[1..] :: item in items;
      NothingStarts(items[1..], rows, cols, if items[0] == Tok(Nl) then r + 1 else r,
                    if items[0] == Tok(Nl) then 0 else if items[0].Text? then c else c + 1);
    }
  }

  /** Without any cell token there is nothing to read, and nothing fails. */
  lemma ReadWithoutCells(stream: seq<Item>)
    requires forall item | item in stream :: !IsCell(item)
    ensures ParsedCells(MixedTexts(stream), Tokens(stream)) == Some([])
  {
    OnlyNewLines(stream);
    NothingStarts(MixedTexts(stream), PadAll([]), 0, 0, 0);
  }

  lemma {:induction false} OnlyNewLines(stream: seq<Item>)
    requires forall item | item in stream :: !IsCell(item)
    ensures SplitRows(Tokens(stream)) == []
    ensures forall item | item in MixedTexts(stream) :: !StartsCell(item)
  {
    if stream == [] {
    } else {
      assert stream[0] in stream && forall item | item in stream[1..] :: item in stream;
      OnlyNewLines(stream[1..]);
      if stream[0].Tok? {
        assert Tokens(stream)[0] == Nl && Tokens(stream)[1..] == Tokens(stream[1..]);
      } else {
        assert Tokens(stream) == Tokens(stream[1..]);
      }
    }
  }

  /** In terms of the lines of the input: the padded slots overrun exactly where a line runs over. */
  lemma OverrunIsRunsOver(rows: seq<seq<Slot>>, tokens: seq<seq<Token>>, cols: nat, r: nat)
    requires RealRows(rows) && (forall k | 0 <= k < |rows| :: |rows[k]| <= cols)
    requires exists k :: 0 <= k < |rows| && |rows[k]| == cols
    requires |tokens| == |rows| && Filled(tokens, cols, PadGrid(rows, cols))
    ensures Overrun(tokens, cols, PadGrid(rows, cols), r) <==> RunsOver(rows, r)
  {
    if r + 1 < |rows| {
      PadGridAt(rows, cols, r);
      PadGridAt(rows, cols, r + 1);
      var slots := PadGrid(rows, cols);
      assert slots[r + 1][0] == rows[r + 1][0] && slots[r + 1][0].token == tokens[r + 1][0];
      assert |rows[r]| < cols ==> slots[r][cols - 1] == Slot(Empty, None);
    }
  }

  /** Reading an orderly input fails with an index error exactly if some line runs over. */
  lemma FailsExactly(stream: seq<Item>)
    requires Orderly(MixedTexts(stream))
    ensures ParsedCells(MixedTexts(stream), Tokens(stream)).None? <==>
      exists r :: RunsOver(SlotRows(MixedTexts(stream)), r)
  {
    var items := MixedTexts(stream);
    var rows := SlotRows(items);
    RowsSpell(items);
    TokensOfMixed(stream);
    TokensSplit(items, rows);
    if rows == [] {
      NoRowsNoCells(items);
      NothingStarts(items, PadAll([]), 0, 0, 0);
    } else {
      RowsFail(items, Tokens(stream), rows);
    }
  }

  lemma RowsFail(items: seq<Item>, tokens: seq<Token>, rows: seq<seq<Slot>>)
    requires rows != [] && Spells(items, rows) && RealRows(rows) && SplitRows(tokens) == TokenRows(rows)
    ensures ParsedCells(items, tokens).None? <==> exists r :: RunsOver(rows, r)
  {
    SomeCellToken(tokens);
    ParseAnyInput(items, tokens);
    SpelledFails(items, rows);
    var padded, cols := PadAll(TokenRows(rows)), MaxLength(TokenRows(rows));
    if r: nat :| RunsOver(rows, r) {
      assert Overrun(padded, cols, FillRows(padded, items), r);
    }
    if r: nat :| r < |padded| && Overrun(padded, cols, FillRows(padded, items), r) {
      assert RunsOver(rows, r);
    }
  }

  lemma SpelledFails(items: seq<Item>, rows: seq<seq<Slot>>)
    requires rows != [] && Spells(items, rows) && RealRows(rows)
    requires Filled(PadAll(TokenRows(rows)), MaxLength(TokenRows(rows)), FillRows(PadAll(TokenRows(rows)), items))
    ensures var padded, cols := PadAll(TokenRows(rows)), MaxLength(TokenRows(rows));
      forall r: nat :: Overrun(padded, cols, FillRows(padded, items), r) <==> RunsOver(rows, r)
  {
    var padded, cols := PadAll(TokenRows(rows)), MaxLength(TokenRows(rows));
    PadAllIsPadded(rows);
    PaddedRefill(items, rows, padded, cols);
    WidestRow(rows, TokenRows(rows), cols);
    forall r: nat
      ensures Overrun(padded, cols, FillRows(padded, items), r) <==> RunsOver(rows, r)
    {
      OverrunIsRunsOver(rows, padded, cols, r);
    }
  }

  lemma NoRowsNoCells(items: seq<Item>)
    requires Spells(items, [])
    ensures items == []
  {
    assert |items| == 0;
  }

  lemma {:induction false} SomeCellToken(tokens: seq<Token>)
    requires SplitRows(tokens) != []
    ensures exists token | token in tokens :: token != Nl
  {
    if tokens[0] == Nl {
      SomeCellToken(tokens[1..]);
      var token :| token in tokens[1..] && token != Nl;
      assert token in tokens;
    } else {
      assert tokens[0] in tokens;
    }
  }

  lemma WidestRow(rows: seq<seq<Slot>>, split: seq<seq<Token>>, cols: nat)
    requires rows != [] && RealRows(rows) && split == TokenRows(rows) && cols == MaxLength(split)
    ensures exists k :: 0 <= k < |rows| && |rows[k]| == cols
  {
    assert rows[0] != [] && split[0] == TokensOf(rows[0]) && split[0] in split;
    var widest :| widest in split && |widest| == cols;
    var k :| 0 <= k < |split| && split[k] == widest;
    assert |rows[k]| == cols;
  }

  /** A full cell without text, a new line and a left cell: an orderly input that cannot be read. */
  lemma ReadingCanFail()
    ensures var stream := [Tok(Full), Tok(Nl), Tok(Left)];
      Orderly(MixedTexts(stream)) && ParsedCells(MixedTexts(stream), Tokens(stream)).None?
  {
    var stream := [Tok(Full), Tok(Nl), Tok(Left)];
    LinesOfExample();
    assert RunsOver(SlotRows(stream), 0);
    FailsExactly(stream);
  }

  lemma LinesOfExample()
    ensures var stream := [Tok(Full), Tok(Nl), Tok(Left)];
      MixedTexts(stream) == stream && Lines(stream) == [[Slot(Full, None)], [Slot(Left, None)]]
  {
    var stream := [Tok(Full), Tok(Nl), Tok(Left)];
    assert stream[1..] == [Tok(Nl), Tok(Left)] && stream[1..][1..] == [Tok(Left)] && [Tok(Left)][1..] == [];
    assert MixedTexts([Tok(Left)]) == [Tok(Left)];
    assert MixedTexts(stream[1..]) == stream[1..];
    assert MixedTexts(stream) == stream;
    LinesOfSlot(Slot(Left, None), []);
    assert [Tok(Left)] + [] == [Tok(Left)] && [Tok(Full)] + stream[1..] == stream;
    assert [Slot(Left, None)] + [] == [Slot(Left, None)];
    assert Lines(stream[1..]) == [[], [Slot(Left, None)]];
    LinesOfSlot(Slot(Full, None), stream[1..]);
    assert [Slot(Full, None)] + [] == [Slot(Full, None)];
    assert [[Slot(Full, None)]] + Lines(stream[1..])[1..] == [[Slot(Full, None)], [Slot(Left, None)]];
    assert Lines(stream) == [[Slot(Full, None)], [Slot(Left, None)]];
  }
}
