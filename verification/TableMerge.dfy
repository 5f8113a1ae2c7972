/** Merging tables that run across pages (MinerU/mineru/utils/table_merge.py). */
module TableMerge {
  import opened Basics
  import opened Otsl
  import opened HtmlTables

  const MAX_HEADER_ROWS: nat := 5

  // ----- normalised texts

  function HalfWidth(c: char): char {
    if 0xFF01 <= c as int <= 0xFF5E then (c as int - 0xFEE0) as char else c
  }

  function FullToHalf(s: string): string {
    seq(|s|, i requires 0 <= i < |s| => HalfWidth(s[i]))
  }

  function WithoutSpaces(s: string): string {
    if s == [] then [] else (if IsSpace(s[0]) then [] else [s[0]]) + WithoutSpaces(s[1..])
  }

  function NormText(cell: HtmlCell): string {
    WithoutSpaces(FullToHalf(cell.text))
  }

  function NormTexts(row: HtmlRow): seq<string> {
    seq(|row|, k requires 0 <= k < |row| => NormText(row[k]))
  }

  function PlainTexts(row: HtmlRow): seq<string> {
    seq(|row|, k requires 0 <= k < |row| => FullToHalf(Strip(row[k].text)))
  }

  // ----- what a reader sees of a text

  /** The full-width form of one of the characters from '!' to '~'. */
  predicate IsFullForm(full: char, half: char) {
    '!' <= half <= '~' && full as int - 0xFF01 == half as int - '!' as int
  }

  /** The same character up to its width. */
  predicate SameGlyph(c: char, d: char) {
    c == d || IsFullForm(c, d) || IsFullForm(d, c)
  }

  lemma HalfWidthIs(c: char, d: char)
    ensures HalfWidth(c) == HalfWidth(d) <==> SameGlyph(c, d)
    ensures HalfWidth(c) != c ==> IsFullForm(c, HalfWidth(c))
    ensures IsFullForm(c, d) ==> HalfWidth(c) == d == HalfWidth(d)
    ensures IsSpace(HalfWidth(c)) <==> IsSpace(c)
  {
  }

  /** The places of the visible characters, in order. */
  ghost predicate VisibleAt(s: string, places: seq<nat>) {
    && (forall i, k | 0 <= i < k < |places| :: places[i] < places[k])
    && (forall i: nat :: i in places <==> i < |s| && !IsSpace(s[i]))
  }

  /** The visible characters agree one by one, up to their width. */
  ghost predicate LooksLike(s: string, t: string) {
    exists p, q :: VisibleAt(s, p) && VisibleAt(t, q) && GlyphsAgree(s, p, t, q)
  }

  ghost predicate GlyphsAgree(s: string, p: seq<nat>, t: string, q: seq<nat>) {
    && |p| == |q|
    && forall k | 0 <= k < |p| :: p[k] < |s| && q[k] < |t| && SameGlyph(s[p[k]], t[q[k]])
  }

  lemma {:induction false} WithoutSpacesAppend(s: string, t: string)
    ensures WithoutSpaces(s + t) == WithoutSpaces(s) + WithoutSpaces(t)
  {
    if s == [] {
      assert s + t == t;
    } else {
      assert (s + t)[1..] == s[1..] + t;
      WithoutSpacesAppend(s[1..], t);
    }
  }

  lemma FullToHalfSnoc(s: string, c: char)
    ensures FullToHalf(s + [c]) == FullToHalf(s) + [HalfWidth(c)]
  {
  }

  /** One more character in front of the end: a blank is dropped. */
  lemma NormSnoc(s: string, c: char)
    ensures WithoutSpaces(FullToHalf(s + [c])) ==
      WithoutSpaces(FullToHalf(s)) + if IsSpace(c) then [] else [HalfWidth(c)]
  {
    FullToHalfSnoc(s, c);
    WithoutSpacesAppend(FullToHalf(s), [HalfWidth(c)]);
    HalfWidthIs(c, c);
    assert WithoutSpaces([HalfWidth(c)]) == if IsSpace(c) then [] else [HalfWidth(c)] by {
      assert [HalfWidth(c)][1..] == [];
    }
  }

  /** The places without the last character. */
  lemma VisibleInit(s: string, places: seq<nat>)
    requires s != [] && VisibleAt(s, places)
    ensures IsSpace(s[|s| - 1]) ==> VisibleAt(s[..|s| - 1], places)
    ensures !IsSpace(s[|s| - 1]) ==>
      places != [] && places[|places| - 1] == |s| - 1 && VisibleAt(s[..|s| - 1], places[..|places| - 1])
  {
    var n := |s| - 1;
    if IsSpace(s[n]) {
      assert forall i: nat :: i in places <==> i < n && !IsSpace(s[..n][i]);
    } else {
      assert n in places;
      var m := |places| - 1;
      var k :| 0 <= k < |places| && places[k] == n;
      assert places[m] in places;
      assert k == m;
      forall i: nat
        ensures i in places[..m] <==> i < n && !IsSpace(s[..n][i])
      {
        assert i in places <==> i in places[..m] || i == n by { LastSplit(places); }
      }
    }
  }

  lemma {:induction false} VisiblePlaces(s: string) returns (places: seq<nat>)
    ensures VisibleAt(s, places)
  {
    if s == [] {
      places := [];
    } else {
      var n := |s| - 1;
      places := VisiblePlaces(s[..n]);
      forall i: nat
        ensures i in places <==> i < n && !IsSpace(s[i])
      {
      }
      forall k | 0 <= k < |places|
        ensures places[k] < n
      {
        assert places[k] in places;
      }
      if !IsSpace(s[n]) {
        places := places + [n];
      }
    }
  }

  lemma PlacesNeedText(s: string, places: seq<nat>)
    requires VisibleAt(s, places) && places != []
    ensures s != []
  {
    assert places[0] in places;
  }

  /** A normalised text consists of the visible characters, in their half-width forms. */
  lemma {:induction false} NormShowsVisible(s: string, places: seq<nat>)
    requires VisibleAt(s, places)
    ensures var norm := WithoutSpaces(FullToHalf(s));
      |norm| == |places| && forall k | 0 <= k < |places| :: places[k] < |s| && norm[k] == HalfWidth(s[places[k]])
  {
    forall k | 0 <= k < |places|
      ensures places[k] < |s|
    {
      assert places[k] in places;
    }
    if places != [] {
      PlacesNeedText(s, places);
    }
    if s == [] {
    } else {
      var n := |s| - 1;
      LastSplit(s);
      NormSnoc(s[..n], s[n]);
      VisibleInit(s, places);
      if IsSpace(s[n]) {
        NormShowsVisible(s[..n], places);
      } else {
        NormShowsVisible(s[..n], places[..|places| - 1]);
      }
    }
  }

  lemma AgreeExactly(s: string, p: seq<nat>, t: string, q: seq<nat>)
    requires VisibleAt(s, p) && VisibleAt(t, q)
    ensures WithoutSpaces(FullToHalf(s)) == WithoutSpaces(FullToHalf(t)) <==> GlyphsAgree(s, p, t, q)
  {
    var a, b := WithoutSpaces(FullToHalf(s)), WithoutSpaces(FullToHalf(t));
    NormShowsVisible(s, p);
    NormShowsVisible(t, q);
    if |p| == |q| {
      forall k | 0 <= k < |p|
        ensures a[k] == b[k] <==> SameGlyph(s[p[k]], t[q[k]])
      {
        HalfWidthIs(s[p[k]], t[q[k]]);
      }
    }
  }

  /** Normalised texts are equal exactly when the raw texts look alike. */
  lemma NormIsLook(s: string, t: string)
    ensures WithoutSpaces(FullToHalf(s)) == WithoutSpaces(FullToHalf(t)) <==> LooksLike(s, t)
  {
    var p := VisiblePlaces(s);
    var q := VisiblePlaces(t);
    AgreeExactly(s, p, t, q);
    if LooksLike(s, t) {
      var p', q' :| VisibleAt(s, p') && VisibleAt(t, q') && GlyphsAgree(s, p', t, q');
      AgreeExactly(s, p', t, q');
    }
  }

  lemma {:induction false} BlankIsNothing(s: string)
    requires Blank(s)
    ensures WithoutSpaces(FullToHalf(s)) == []
  {
    if s == [] {
    } else {
      var n := |s| - 1;
      BlankIsNothing(s[..n]);
      LastSplit(s);
      NormSnoc(s[..n], s[n]);
    }
  }

  lemma NormAppend(s: string, t: string)
    ensures WithoutSpaces(FullToHalf(s + t)) == WithoutSpaces(FullToHalf(s)) + WithoutSpaces(FullToHalf(t))
  {
    assert FullToHalf(s + t) == FullToHalf(s) + FullToHalf(t);
    WithoutSpacesAppend(FullToHalf(s), FullToHalf(t));
  }

  lemma StrippedLooksAlike(text: string)
    ensures LooksLike(FullToHalf(Strip(text)), text)
  {
    var stripped := Strip(text);
    var a, b := StripIs(text);
    assert WithoutSpaces(FullToHalf(text)) == WithoutSpaces(FullToHalf(stripped)) by {
      BlankIsNothing(a);
      BlankIsNothing(b);
      NormAppend(a + stripped, b);
      NormAppend(a, stripped);
    }
    HalfOfHalf(stripped);
    NormIsLook(FullToHalf(stripped), text);
  }

  lemma HalfOfHalf(s: string)
    ensures FullToHalf(FullToHalf(s)) == FullToHalf(s)
    ensures forall c | c in FullToHalf(s) :: HalfWidth(c) == c
  {
  }

  /** The text of a header cell looks like that of the cell, has half-width characters only and no white space at its
      ends. */
  lemma PlainTextLooksAlike(row: HtmlRow, k: nat)
    requires k < |row|
    ensures |PlainTexts(row)| == |row| && LooksLike(PlainTexts(row)[k], row[k].text)
    ensures forall c | c in PlainTexts(row)[k] :: HalfWidth(c) == c
    ensures var plain := PlainTexts(row)[k]; plain != [] ==> !IsSpace(plain[0]) && !IsSpace(plain[|plain| - 1])
  {
    StrippedLooksAlike(row[k].text);
    HalfOfHalf(Strip(row[k].text));
    EndsAreVisible(row[k].text);
  }

  lemma EndsAreVisible(text: string)
    ensures var plain := FullToHalf(Strip(text)); plain != [] ==> !IsSpace(plain[0]) && !IsSpace(plain[|plain| - 1])
  {
    var stripped := Strip(text);
    var a, b := StripIs(text);
    if stripped != [] {
      HalfWidthIs(stripped[0], stripped[0]);
      HalfWidthIs(stripped[|stripped| - 1], stripped[|stripped| - 1]);
    }
  }

  /** The cells of two rows have texts that look alike. */
  ghost predicate RowsLookAlike(row1: HtmlRow, row2: HtmlRow) {
    |row1| == |row2| && forall k | 0 <= k < |row1| :: LooksLike(row1[k].text, row2[k].text)
  }

  // ----- header detection

  /** Row i of both tables has the same number of effective columns. */
  ghost predicate SameWidth(rows1: seq<HtmlRow>, rows2: seq<HtmlRow>, i: nat)
    requires i < |rows1| && i < |rows2|
  {
    exists n :: Effective(rows1, i, n) && Effective(rows2, i, n)
  }

  ghost predicate CellsAgree(a: HtmlCell, b: HtmlCell) {
    ColSpan(a) == ColSpan(b) && RowSpan(a) == RowSpan(b) && LooksLike(a.text, b.text)
  }

  /** Same structure and texts, or, when `strict` is off, only the same texts. */
  ghost predicate HeaderMatch(rows1: seq<HtmlRow>, rows2: seq<HtmlRow>, strict: bool, i: nat)
    requires i < |rows1| && i < |rows2|
  {
    && SameWidth(rows1, rows2, i)
    && RowsLookAlike(rows1[i], rows2[i])
    && (strict ==> forall k | 0 <= k < |rows1[i]| && k < |rows2[i]| :: CellsAgree(rows1[i][k], rows2[i][k]))
  }

  function HeaderLimit(rows1: seq<HtmlRow>, rows2: seq<HtmlRow>): nat {
    Min(Min(|rows1|, |rows2|), MAX_HEADER_ROWS)
  }

  ghost predicate MatchUpTo(rows1: seq<HtmlRow>, rows2: seq<HtmlRow>, strict: bool, n: nat)
    requires n <= |rows1| && n <= |rows2|
  {
    forall i: nat | i < n :: HeaderMatch(rows1, rows2, strict, i)
  }

  function TextsUpTo(rows: seq<HtmlRow>, n: nat): seq<seq<string>>
    requires n <= |rows|
  {
    seq(n, i requires 0 <= i < n => PlainTexts(rows[i]))
  }

  /** The first n rows match, and n is the limit or the next row does not match. */
  ghost predicate LongestMatch(rows1: seq<HtmlRow>, rows2: seq<HtmlRow>, strict: bool, n: nat) {
    && n <= HeaderLimit(rows1, rows2)
    && MatchUpTo(rows1, rows2, strict, n)
    && (n < HeaderLimit(rows1, rows2) ==> !HeaderMatch(rows1, rows2, strict, n))
  }

  lemma CellsAgreeIs(a: HtmlCell, b: HtmlCell)
    ensures CellsAgree(a, b) <==> ColSpan(a) == ColSpan(b) && RowSpan(a) == RowSpan(b) && NormText(a) == NormText(b)
  {
    NormIsLook(a.text, b.text);
  }

  method RowsAgree(row1: HtmlRow, row2: HtmlRow) returns (agree: bool)
    requires |row1| == |row2|
    ensures agree <==> forall k | 0 <= k < |row1| :: CellsAgree(row1[k], row2[k])
  {
    for k := 0 to |row1|
      invariant forall m | 0 <= m < k :: CellsAgree(row1[m], row2[m])
    {
      CellsAgreeIs(row1[k], row2[k]);
      if ColSpan(row1[k]) != ColSpan(row2[k]) || RowSpan(row1[k]) != RowSpan(row2[k])
         || NormText(row1[k]) != NormText(row2[k]) {
        return false;
      }
    }
    return true;
  }

  lemma NormTextsAgree(row1: HtmlRow, row2: HtmlRow)
    ensures NormTexts(row1) == NormTexts(row2) <==> RowsLookAlike(row1, row2)
  {
    if |row1| == |row2| {
      forall k | 0 <= k < |row1|
        ensures NormTexts(row1)[k] == NormTexts(row2)[k] <==> LooksLike(row1[k].text, row2[k].text)
      {
        NormIsLook(row1[k].text, row2[k].text);
      }
    }
  }

  method RowMatches(rows1: seq<HtmlRow>, rows2: seq<HtmlRow>, effective1: map<int, int>, effective2: map<int, int>,
                    strict: bool, i: nat) returns (matches: bool)
    requires i < |rows1| && i < |rows2|
    requires EffectiveColumns(rows1, effective1) && EffectiveColumns(rows2, effective2)
    ensures matches <==> HeaderMatch(rows1, rows2, strict, i)
  {
    NormTextsAgree(rows1[i], rows2[i]);
    assert Effective(rows1, i, effective1[i]) && Effective(rows2, i, effective2[i]);
    assert effective1[i] == effective2[i] <==> SameWidth(rows1, rows2, i);
    if |rows1[i]| != |rows2[i]| {
      matches := false;
    } else if effective1[i] != effective2[i] {
      matches := false;
    } else if strict {
      matches := RowsAgree(rows1[i], rows2[i]);
    } else {
      matches := NormTexts(rows1[i]) == NormTexts(rows2[i]);
    }
  }

  lemma OneMoreRow(rows1: seq<HtmlRow>, rows2: seq<HtmlRow>, strict: bool, n: nat)
    requires n < |rows1| && n < |rows2| && MatchUpTo(rows1, rows2, strict, n)
    ensures MatchUpTo(rows1, rows2, strict, n + 1) <==> HeaderMatch(rows1, rows2, strict, n)
    ensures TextsUpTo(rows1, n + 1) == TextsUpTo(rows1, n) + [PlainTexts(rows1[n])]
  {
  }

  /** Counts matching rows from the top, up to the limit. */
  method CountHeaderRows(rows1: seq<HtmlRow>, rows2: seq<HtmlRow>, strict: bool)
    returns (headerRows: nat, headersMatch: bool, headerTexts: seq<seq<string>>)
    ensures LongestMatch(rows1, rows2, strict, headerRows)
    ensures headersMatch ==> headerRows > 0 || HeaderLimit(rows1, rows2) == 0
    ensures headerRows > 0 ==> headersMatch
    ensures headerRows <= |rows1| && headerTexts == TextsUpTo(rows1, headerRows)
  {
    var effective1 := BuildTableOccupiedMatrix(rows1);
    var effective2 := BuildTableOccupiedMatrix(rows2);
    headerRows, headersMatch, headerTexts := 0, true, [];
    for i := 0 to HeaderLimit(rows1, rows2)
      invariant headerRows == i && headersMatch
      invariant MatchUpTo(rows1, rows2, strict, i) && headerTexts == TextsUpTo(rows1, i)
    {
      var matches := RowMatches(rows1, rows2, effective1, effective2, strict, i);
      OneMoreRow(rows1, rows2, strict, i);
      if matches {
        headerRows := headerRows + 1;
        headerTexts := headerTexts + [PlainTexts(rows1[i])];
      } else {
        headersMatch := headerRows > 0;
        break;
      }
    }
  }

  /** The strictly matching rows on top of both tables or, if there is none, the rows with the same texts. */
  ghost predicate HeaderCount(rows1: seq<HtmlRow>, rows2: seq<HtmlRow>, n: nat) {
    LongestMatch(rows1, rows2, !LongestMatch(rows1, rows2, true, 0), n)
  }

  lemma HeaderTextsAgree(rows1: seq<HtmlRow>, rows2: seq<HtmlRow>, n: nat)
    requires HeaderCount(rows1, rows2, n)
    ensures n <= HeaderLimit(rows1, rows2)
    ensures forall i | 0 <= i < n :: RowsLookAlike(rows1[i], rows2[i])
    ensures n <= 5
    ensures n < 5 && n < |rows1| && n < |rows2| ==>
      !HeaderMatch(rows1, rows2, !LongestMatch(rows1, rows2, true, 0), n)
  {
    var strict := !LongestMatch(rows1, rows2, true, 0);
    forall i: nat | i < n
      ensures RowsLookAlike(rows1[i], rows2[i])
    {
      assert HeaderMatch(rows1, rows2, strict, i);
    }
  }

  method DetectTableHeaders(rows1: seq<HtmlRow>, rows2: seq<HtmlRow>)
    returns (headerRows: nat, headersMatch: bool, headerTexts: seq<seq<string>>)
    ensures HeaderCount(rows1, rows2, headerRows)
    ensures headersMatch <==> headerRows > 0
    ensures headerRows <= |rows1| && headerTexts == TextsUpTo(rows1, headerRows)
  {
    headerRows, headersMatch, headerTexts := CountHeaderRows(rows1, rows2, true);
    assert headerRows == 0 <==> LongestMatch(rows1, rows2, true, 0) by {
      assert headerRows > 0 ==> HeaderMatch(rows1, rows2, true, 0);
    }
    if headerRows == 0 {
      headerRows, headersMatch, headerTexts := CountHeaderRows(rows1, rows2, false);
      if headerRows == 0 {
        headersMatch := false;
      }
    }
  }

  // ----- adjusting column spans

  /** Same cells but for the column spans. */
  ghost predicate SameContent(row1: HtmlRow, row2: HtmlRow) {
    && |row1| == |row2|
    && forall k | 0 <= k < |row1| :: row1[k].text == row2[k].text && row1[k].rowspan == row2[k].rowspan
  }

  function TotalColSpan(row: HtmlRow): int {
    if row == [] then 0 else TotalColSpan(row[..|row| - 1]) + ColSpan(row[|row| - 1])
  }

  function ColSpans(row: HtmlRow): seq<int> {
    seq(|row|, k requires 0 <= k < |row| => ColSpan(row[k]))
  }

  function WithReference(row: HtmlRow, reference: seq<int>): HtmlRow {
    seq(|row|, k requires 0 <= k < |row| =>
      if k < |reference| && reference[k] > 1 then row[k].(colspan := Some(reference[k])) else row[k])
  }

  function WithLastWidened(row: HtmlRow, extra: int): HtmlRow
    requires row != []
  {
    row[|row| - 1 := row[|row| - 1].(colspan := Some(ColSpan(row[|row| - 1]) + extra))]
  }

  /** What happens to one row of `effective` columns when the table is to have `target` columns. */
  function AdjustedRow(row: HtmlRow, effective: int, target: int, reference: seq<int>, referenceRow: HtmlRow): HtmlRow {
    if row == [] || effective >= target || TotalColSpan(row) >= target then row
    else if |row| == |reference| && ColSpans(row) == ColSpans(referenceRow) then WithReference(row, reference)
    else WithLastWidened(row, target - effective)
  }

  lemma AdjustedRowKeepsContent(row: HtmlRow, effective: int, target: int, reference: seq<int>,
                                                   referenceRow: HtmlRow)
    ensures var adjusted := AdjustedRow(row, effective, target, reference, referenceRow);
      SameContent(row, adjusted) && NormTexts(adjusted) == NormTexts(row)
  {
    var adjusted := AdjustedRow(row, effective, target, reference, referenceRow);
    assert SameContent(row, adjusted);
    SameContentSameTexts(row, adjusted);
  }

  lemma SameContentSameTexts(row1: HtmlRow, row2: HtmlRow)
    requires SameContent(row1, row2)
    ensures NormTexts(row1) == NormTexts(row2)
  {
    forall k | 0 <= k < |row1|
      ensures NormText(row1[k]) == NormText(row2[k])
    {
    }
  }

  ghost predicate IsAdjusted(rows: seq<HtmlRow>, i: nat, target: int, reference: seq<int>, referenceRow: HtmlRow,
                             row: HtmlRow)
    requires i < |rows|
  {
    exists n :: Effective(rows, i, n) && row == AdjustedRow(rows[i], n, target, reference, referenceRow)
  }

  /** The widening branch makes the row wider by exactly what its effective columns lack. */
  lemma WidenedByShortfall(row: HtmlRow, effective: int, target: int, reference: seq<int>,
                                              referenceRow: HtmlRow)
    requires row != [] && effective < target && TotalColSpan(row) < target
    requires |row| != |reference| || ColSpans(row) != ColSpans(referenceRow)
    ensures TotalColSpan(AdjustedRow(row, effective, target, reference, referenceRow)) ==
      TotalColSpan(row) + target - effective
    ensures TotalColSpan(AdjustedRow(row, effective, target, reference, referenceRow)) <= target <==>
      TotalColSpan(row) <= effective
  {
    var n := |row| - 1;
    var adjusted := WithLastWidened(row, target - effective);
    assert adjusted[..n] == row[..n];
  }

  /** A row that is fitted to the reference takes over its spans exactly if it had those that are not above 1. */
  lemma FittedToReference(row: HtmlRow, effective: int, target: int, reference: seq<int>, referenceRow: HtmlRow)
    requires row != [] && effective < target && TotalColSpan(row) < target
    requires |row| == |reference| && ColSpans(row) == ColSpans(referenceRow)
    ensures var adjusted := AdjustedRow(row, effective, target, reference, referenceRow);
      && |adjusted| == |row|
      && (forall k | 0 <= k < |row| ::
            ColSpan(adjusted[k]) == reference[k] || (reference[k] <= 1 && adjusted[k] == row[k]))
      && (ColSpans(adjusted) == reference <==>
            forall k | 0 <= k < |row| :: reference[k] <= 1 ==> ColSpan(row[k]) == reference[k])
  {
    var adjusted := AdjustedRow(row, effective, target, reference, referenceRow);
    assert forall k | 0 <= k < |row| :: ColSpans(adjusted)[k] == ColSpan(adjusted[k]);
  }

  /** Rows first..last of the table, each adjusted by its effective columns before any adjustment. */
  method AdjustTableRowsColspan(rows: seq<HtmlRow>, first: nat, last: nat, reference: seq<int>, target: int,
                                referenceRow: HtmlRow) returns (adjusted: seq<HtmlRow>)
    requires first <= last <= |rows|
    ensures |adjusted| == |rows|
    ensures forall i | 0 <= i < |rows| && !(first <= i < last) :: adjusted[i] == rows[i]
    ensures forall i | first <= i < last :: IsAdjusted(rows, i, target, reference, referenceRow, adjusted[i])
    ensures forall i | 0 <= i < |rows| :: SameContent(rows[i], adjusted[i])
  {
    var effective := BuildTableOccupiedMatrix(rows);
    adjusted := rows;
    for i := first to last
      invariant |adjusted| == |rows|
      invariant forall k | 0 <= k < |rows| && !(first <= k < i) :: adjusted[k] == rows[k]
      invariant forall k | first <= k < i :: IsAdjusted(rows, k, target, reference, referenceRow, adjusted[k])
    {
      var row := AdjustRow(rows[i], effective[i], target, reference, referenceRow);
      assert Effective(rows, i, effective[i]);
      adjusted := adjusted[i := row];
    }
    forall i | 0 <= i < |rows|
      ensures SameContent(rows[i], adjusted[i])
    {
      if first <= i < last {
        AdjustedKeepsContent(rows, i, target, reference, referenceRow, adjusted[i]);
      }
    }
  }

  method AdjustRow(row: HtmlRow, effective: int, target: int, reference: seq<int>, referenceRow: HtmlRow)
    returns (adjusted: HtmlRow)
    ensures adjusted == AdjustedRow(row, effective, target, reference, referenceRow)
  {
    if row == [] { return row; }
    if effective >= target || TotalColSpan(row) >= target { return row; }
    if |row| == |reference| && ColSpans(row) == ColSpans(referenceRow) {
      return WithReference(row, reference);
    } else {
      return WithLastWidened(row, target - effective);
    }
  }

  lemma AdjustedKeepsContent(rows: seq<HtmlRow>, i: nat, target: int, reference: seq<int>, referenceRow: HtmlRow,
                             row: HtmlRow)
    requires i < |rows| && IsAdjusted(rows, i, target, reference, referenceRow, row)
    ensures SameContent(rows[i], row)
  {
    var n :| Effective(rows, i, n) && row == AdjustedRow(rows[i], n, target, reference, referenceRow);
    AdjustedRowKeepsContent(rows[i], n, target, reference, referenceRow);
  }

  // ----- merging two tables

  /** The rows of the first table followed by those of the second without its first `header` rows. */
  ghost predicate Joined(rows1: seq<HtmlRow>, rows2: seq<HtmlRow>, header: nat, merged: seq<HtmlRow>) {
    && header <= HeaderLimit(rows1, rows2)
    && |merged| == |rows1| + |rows2| - header
    && (forall i | 0 <= i < header :: RowsLookAlike(rows1[i], rows2[i]))
    && (forall i | 0 <= i < |rows1| :: SameContent(rows1[i], merged[i]))
    && (forall i | header <= i < |rows2| :: SameContent(rows2[i], merged[|rows1| + i - header]))
  }

  /** The rows of the narrower table are adjusted to the width of the other; the wider table stays as it is. */
  ghost predicate Widened(rows1: seq<HtmlRow>, rows2: seq<HtmlRow>, header: nat, first: seq<HtmlRow>,
                          second: seq<HtmlRow>) {
    && |first| == |rows1| && |second| == |rows2|
    && var cols1, cols2 := PlaceRows(rows1).furthest, PlaceRows(rows2).furthest;
      if rows1 == [] || header >= |rows2| then first == rows1 && second == rows2
      else if cols1 >= cols2 then
        && first == rows1
        && forall i | header <= i < |rows2| ::
             IsAdjusted(rows2, i, cols1, ColSpans(rows1[|rows1| - 1]), rows2[header], second[i])
      else
        && second == rows2
        && forall i | 0 <= i < |rows1| ::
             IsAdjusted(rows1, i, cols2, ColSpans(rows2[header]), rows1[|rows1| - 1], first[i])
  }

  method PerformTableMerge(rows1: seq<HtmlRow>, rows2: seq<HtmlRow>) returns (merged: seq<HtmlRow>, header: nat)
    ensures Joined(rows1, rows2, header, merged)
    ensures HeaderCount(rows1, rows2, header)
    ensures Widened(rows1, rows2, header, merged[..|rows1|], rows2[..header] + merged[|rows1|..])
  {
    var headersMatch, headerTexts;
    header, headersMatch, headerTexts := DetectTableHeaders(rows1, rows2);
    HeaderTextsAgree(rows1, rows2, header);
    var first, second := AdjustBoth(rows1, rows2, header);
    merged := WithRowsFrom(first, second, header);
    MergedParts(rows1, rows2, header, first, second);
  }

  method WithRowsFrom(first: seq<HtmlRow>, second: seq<HtmlRow>, start: nat) returns (merged: seq<HtmlRow>)
    requires start <= |second|
    ensures merged == first + second[start..]
  {
    merged := first;
    for i := start to |second|
      invariant merged == first + second[start..i]
    {
      merged := merged + [second[i]];
    }
    assert second[start..|second|] == second[start..];
  }

  lemma MergedParts(rows1: seq<HtmlRow>, rows2: seq<HtmlRow>, header: nat, first: seq<HtmlRow>, second: seq<HtmlRow>)
    requires header <= HeaderLimit(rows1, rows2) && Widened(rows1, rows2, header, first, second)
    requires forall i | 0 <= i < header :: RowsLookAlike(rows1[i], rows2[i])
    requires forall i | 0 <= i < |rows1| :: SameContent(rows1[i], first[i])
    requires forall i | 0 <= i < |rows2| :: SameContent(rows2[i], second[i])
    ensures var merged := first + second[header..];
      && Joined(rows1, rows2, header, merged)
      && Widened(rows1, rows2, header, merged[..|rows1|], rows2[..header] + merged[|rows1|..])
  {
    JoinedParts(rows1, rows2, header, first, second);
    WidenedBehindHeader(rows1, rows2, header, first, second, second[header..]);
    var merged := first + second[header..];
    assert merged[..|rows1|] == first && merged[|rows1|..] == second[header..];
  }

  lemma JoinedParts(rows1: seq<HtmlRow>, rows2: seq<HtmlRow>, header: nat, first: seq<HtmlRow>, second: seq<HtmlRow>)
    requires header <= HeaderLimit(rows1, rows2)
    requires forall i | 0 <= i < header :: RowsLookAlike(rows1[i], rows2[i])
    requires |first| == |rows1| && forall i | 0 <= i < |rows1| :: SameContent(rows1[i], first[i])
    requires |second| == |rows2| && forall i | 0 <= i < |rows2| :: SameContent(rows2[i], second[i])
    ensures Joined(rows1, rows2, header, first + second[header..])
  {
    var merged := first + second[header..];
    assert forall i | header <= i < |rows2| :: merged[|rows1| + i - header] == second[i];
  }

  /** What becomes of the dropped header rows does not matter. */
  lemma WidenedBehindHeader(rows1: seq<HtmlRow>, rows2: seq<HtmlRow>, header: nat, first: seq<HtmlRow>,
                            second: seq<HtmlRow>, rest: seq<HtmlRow>)
    requires Widened(rows1, rows2, header, first, second) && header <= |rows2|
    requires rest == second[header..]
    ensures Widened(rows1, rows2, header, first, rows2[..header] + rest)
  {
    var all := rows2[..header] + rest;
    assert forall i | header <= i < |rows2| :: all[i] == second[i];
    assert rows2 == rows2[..header] + rows2[header..];
  }

  /** Widens the rows of the narrower table. */
  method AdjustBoth(rows1: seq<HtmlRow>, rows2: seq<HtmlRow>, headerCount: nat)
    returns (first: seq<HtmlRow>, second: seq<HtmlRow>)
    requires headerCount <= |rows2|
    ensures |first| == |rows1| && forall i | 0 <= i < |rows1| :: SameContent(rows1[i], first[i])
    ensures |second| == |rows2| && forall i | 0 <= i < |rows2| :: SameContent(rows2[i], second[i])
    ensures Widened(rows1, rows2, headerCount, first, second)
  {
    first, second := rows1, rows2;
    if rows1 != [] && headerCount < |rows2| {
      var lastRow1 := rows1[|rows1| - 1];
      var firstDataRow2 := rows2[headerCount];
      var cols1 := CalculateTableTotalColumns(rows1);
      var cols2 := CalculateTableTotalColumns(rows2);
      if cols1 >= cols2 {
        second := AdjustTableRowsColspan(rows2, headerCount, |rows2|, ColSpans(lastRow1), cols1, firstDataRow2);
      } else {
        first := AdjustTableRowsColspan(rows1, 0, |rows1|, ColSpans(firstDataRow2), cols2, lastRow1);
      }
    }
  }

  // ----- the whole document

  /** A block of a page; a deleted table has lost its lines but keeps its place. */
  datatype Block = Table(rows: seq<HtmlRow>, deleted: bool) | Other(text: string)

  datatype Page = Page(blocks: seq<Block>)

  function BlockRows(block: Block): seq<HtmlRow> {
    if block.Table? then block.rows else []
  }

  function RowsOfBlocks(blocks: seq<Block>): seq<HtmlRow> {
    if blocks == [] then [] else RowsOfBlocks(blocks[..|blocks| - 1]) + BlockRows(blocks[|blocks| - 1])
  }

  /** All table rows of a document in reading order. */
  function AllRows(pages: seq<Page>): seq<HtmlRow> {
    if pages == [] then [] else AllRows(pages[..|pages| - 1]) + RowsOfBlocks(pages[|pages| - 1].blocks)
  }

  /** A row without its column spans. */
  function Bare(row: HtmlRow): HtmlRow {
    seq(|row|, k requires 0 <= k < |row| => row[k].(colspan := None))
  }

  function BareRows(rows: seq<HtmlRow>): seq<HtmlRow> {
    seq(|rows|, i requires 0 <= i < |rows| => Bare(rows[i]))
  }

  /** The same rows one by one, but for column spans. */
  predicate SameRows(a: seq<HtmlRow>, b: seq<HtmlRow>) {
    BareRows(a) == BareRows(b)
  }

  lemma SameContentIsBare(row1: HtmlRow, row2: HtmlRow)
    ensures SameContent(row1, row2) <==> Bare(row1) == Bare(row2)
  {
    if Bare(row1) == Bare(row2) {
      assert |row1| == |row2|;
      forall k | 0 <= k < |row1|
        ensures row1[k].text == row2[k].text && row1[k].rowspan == row2[k].rowspan
      {
        assert Bare(row1)[k] == Bare(row2)[k];
      }
    }
  }

  lemma SameRowAt(a: seq<HtmlRow>, b: seq<HtmlRow>, i: nat)
    requires SameRows(a, b) && i < |a|
    ensures |a| == |b| && SameContent(a[i], b[i])
  {
    assert |BareRows(a)| == |a| && |BareRows(b)| == |b|;
    assert BareRows(a)[i] == BareRows(b)[i];
    SameContentIsBare(a[i], b[i]);
  }

  lemma SameRowByRow(a: seq<HtmlRow>, b: seq<HtmlRow>)
    requires |a| == |b| && forall i | 0 <= i < |a| :: SameContent(a[i], b[i])
    ensures SameRows(a, b)
  {
    forall i | 0 <= i < |a|
      ensures BareRows(a)[i] == BareRows(b)[i]
    {
      SameContentIsBare(a[i], b[i]);
    }
  }

  lemma BareRowsAppend(a: seq<HtmlRow>, b: seq<HtmlRow>)
    ensures BareRows(a + b) == BareRows(a) + BareRows(b)
  {
  }

  lemma BareRowsDrop(a: seq<HtmlRow>, n: nat)
    requires n <= |a|
    ensures BareRows(a[n..]) == BareRows(a)[n..]
  {
  }

  lemma {:induction false} RowsOfBlocksAppend(a: seq<Block>, b: seq<Block>)
    ensures RowsOfBlocks(a + b) == RowsOfBlocks(a) + RowsOfBlocks(b)
  {
    if b == [] {
      assert a + b == a;
    } else {
      var init, last := b[..|b| - 1], b[|b| - 1];
      RowsOfBlocksAppend(a, init);
      LastOfAppend(a, b);
      Assoc(RowsOfBlocks(a), RowsOfBlocks(init), BlockRows(last));
    }
  }

  lemma {:induction false} AllRowsAppend(a: seq<Page>, b: seq<Page>)
    ensures AllRows(a + b) == AllRows(a) + AllRows(b)
  {
    if b == [] {
      assert a + b == a;
    } else {
      var init, last := b[..|b| - 1], b[|b| - 1];
      AllRowsAppend(a, init);
      LastOfAppend(a, b);
      Assoc(AllRows(a), AllRows(init), RowsOfBlocks(last.blocks));
    }
  }

  function LastBlock(page: Page): Block
    requires page.blocks != []
  {
    page.blocks[|page.blocks| - 1]
  }

  /** What the code decides elsewhere, by captions, footnotes and widths: may the first table of page p go into the
      last one of the page before? */
  type Oracle = (nat, Block, Block) -> bool

  /** Page p begins with a table, the page before ends with one, and the two may be merged. */
  predicate MergesAt(pages: seq<Page>, p: nat, mayMerge: Oracle) {
    && 0 < p < |pages| && pages[p].blocks != [] && pages[p].blocks[0].Table?
    && pages[p - 1].blocks != [] && LastBlock(pages[p - 1]).Table?
    && mayMerge(p, pages[p].blocks[0], LastBlock(pages[p - 1]))
  }

  /** The pages after the tables at the break before page p have become the one table `merged`. */
  function MergedPages(pages: seq<Page>, p: nat, merged: seq<HtmlRow>): seq<Page>
    requires 0 < p < |pages| && pages[p].blocks != [] && pages[p].blocks[0].Table?
    requires pages[p - 1].blocks != [] && LastBlock(pages[p - 1]).Table?
  {
    var last := |pages[p - 1].blocks| - 1;
    var previous := pages[p - 1].blocks[last := pages[p - 1].blocks[last].(rows := merged)];
    var current := pages[p].blocks[0 := Table([], true)];
    pages[p - 1 := Page(previous)][p := Page(current)]
  }

  // ----- the outcome of the reverse pass

  /** A merge: the number of header rows it dropped, and the rows of the joined table. */
  datatype Join = Join(header: nat, rows: seq<HtmlRow>)

  /** The merge at the break before each page, if there was one; nothing lies behind the last page. */
  type Plan = seq<Option<Join>>

  ghost predicate IsJoin(rows1: seq<HtmlRow>, rows2: seq<HtmlRow>, join: Join) {
    && HeaderCount(rows1, rows2, join.header)
    && Joined(rows1, rows2, join.header, join.rows)
    && Widened(rows1, rows2, join.header, join.rows[..|rows1|], rows2[..join.header] + join.rows[|rows1|..])
  }

  /** The last block of page p with what the merge behind the page has put into it. */
  function Upper(pages: seq<Page>, plan: Plan, p: nat): Block
    requires |plan| == |pages| + 1 && p < |pages| && pages[p].blocks != []
  {
    var last := LastBlock(pages[p]);
    if plan[p + 1].Some? && last.Table? then last.(rows := plan[p + 1].value.rows) else last
  }

  /** The first block of page p when its break comes up: on a page of one block it has been merged into before. */
  function Lower(pages: seq<Page>, plan: Plan, p: nat): Block
    requires |plan| == |pages| + 1 && p < |pages| && pages[p].blocks != []
  {
    if |pages[p].blocks| == 1 then Upper(pages, plan, p) else pages[p].blocks[0]
  }

  predicate MergesByPlan(pages: seq<Page>, plan: Plan, p: nat, mayMerge: Oracle)
    requires |plan| == |pages| + 1
  {
    && 0 < p < |pages| && pages[p].blocks != [] && Lower(pages, plan, p).Table?
    && pages[p - 1].blocks != [] && LastBlock(pages[p - 1]).Table?
    && mayMerge(p, Lower(pages, plan, p), LastBlock(pages[p - 1]))
  }

  /** At the break before page p there was a merge exactly if there had to be one, and it joined the original last
      table of the page before with the first table of page p as it had become by then. */
  ghost predicate BreakDone(pages: seq<Page>, plan: Plan, p: nat, mayMerge: Oracle)
    requires |plan| == |pages| + 1 && p <= |pages|
  {
    if MergesByPlan(pages, plan, p, mayMerge)
    then plan[p].Some? && IsJoin(LastBlock(pages[p - 1]).rows, Lower(pages, plan, p).rows, plan[p].value)
    else plan[p].None?
  }

  /** The breaks before page `from` and behind are done, the others are not. */
  ghost predicate Planned(pages: seq<Page>, plan: Plan, from: nat, mayMerge: Oracle) {
    && |plan| == |pages| + 1 && from <= |pages|
    && (forall p | 0 <= p < from :: plan[p].None?)
    && (forall p: nat | from <= p <= |pages| :: BreakDone(pages, plan, p, mayMerge))
  }

  function FinalBlock(pages: seq<Page>, plan: Plan, p: nat, b: nat): Block
    requires |plan| == |pages| + 1 && p < |pages| && b < |pages[p].blocks|
  {
    if b == 0 && plan[p].Some? then Table([], true)
    else if b == |pages[p].blocks| - 1 then Upper(pages, plan, p)
    else pages[p].blocks[b]
  }

  function FinalPage(pages: seq<Page>, plan: Plan, p: nat): Page
    requires |plan| == |pages| + 1 && p < |pages|
  {
    Page(seq(|pages[p].blocks|, b requires 0 <= b < |pages[p].blocks| => FinalBlock(pages, plan, p, b)))
  }

  /** The document after the merges of the plan: a table that was merged away is empty and marked, a table that was
      merged into has the joined rows, and every other block is the original one. */
  function FinalPages(pages: seq<Page>, plan: Plan): seq<Page>
    requires |plan| == |pages| + 1
  {
    seq(|pages|, p requires 0 <= p < |pages| => FinalPage(pages, plan, p))
  }

  /** When the break before page p comes up, its two tables are those of the plan. */
  lemma BreakBlocks(pages: seq<Page>, plan: Plan, p: nat, mayMerge: Oracle)
    requires Planned(pages, plan, p + 1, mayMerge)
    ensures pages[p].blocks != [] ==> FinalPages(pages, plan)[p].blocks[0] == Lower(pages, plan, p)
    ensures p > 0 && pages[p - 1].blocks != [] ==>
      LastBlock(FinalPages(pages, plan)[p - 1]) == LastBlock(pages[p - 1])
    ensures MergesAt(FinalPages(pages, plan), p, mayMerge) <==> MergesByPlan(pages, plan, p, mayMerge)
  {
  }

  lemma PlannedStep(pages: seq<Page>, plan: Plan, p: nat, mayMerge: Oracle, entry: Option<Join>)
    requires Planned(pages, plan, p + 1, mayMerge)
    requires if MergesByPlan(pages, plan, p, mayMerge)
             then entry.Some? && IsJoin(LastBlock(pages[p - 1]).rows, Lower(pages, plan, p).rows, entry.value)
             else entry.None?
    ensures Planned(pages, plan[p := entry], p, mayMerge)
  {
    var next := plan[p := entry];
    forall q: nat | p <= q <= |pages|
      ensures BreakDone(pages, next, q, mayMerge)
    {
      assert q > p ==> BreakDone(pages, plan, q, mayMerge);
      assert 0 < q < |pages| && pages[q].blocks != [] ==> Lower(pages, next, q) == Lower(pages, plan, q);
    }
  }

  lemma FinalStep(pages: seq<Page>, plan: Plan, p: nat, mayMerge: Oracle, join: Join)
    requires Planned(pages, plan, p + 1, mayMerge) && MergesAt(FinalPages(pages, plan), p, mayMerge)
    ensures FinalPages(pages, plan[p := Some(join)]) == MergedPages(FinalPages(pages, plan), p, join.rows)
  {
    var before, plan' := FinalPages(pages, plan), plan[p := Some(join)];
    var after := MergedPages(before, p, join.rows);
    forall q | 0 <= q < |pages|
      ensures FinalPage(pages, plan', q) == after[q]
    {
      forall b | 0 <= b < |pages[q].blocks|
        ensures FinalBlock(pages, plan', q, b) == after[q].blocks[b]
      {
      }
    }
  }

  /** What happens at one break: a merge exactly if there has to be one, and otherwise nothing. */
  ghost predicate BreakMade(before: seq<Page>, after: seq<Page>, p: nat, mayMerge: Oracle, join: Option<Join>) {
    && (join.Some? <==> MergesAt(before, p, mayMerge))
    && (join.Some? ==>
          && IsJoin(LastBlock(before[p - 1]).rows, before[p].blocks[0].rows, join.value)
          && after == MergedPages(before, p, join.value.rows))
    && (join.None? ==> after == before)
  }

  /** One step of the reverse pass. */
  lemma BreakStep(original: seq<Page>, plan: Plan, p: nat, mayMerge: Oracle, after: seq<Page>, join: Option<Join>)
    requires Planned(original, plan, p + 1, mayMerge)
    requires BreakMade(FinalPages(original, plan), after, p, mayMerge, join)
    ensures Planned(original, plan[p := join], p, mayMerge)
    ensures after == FinalPages(original, plan[p := join])
  {
    var pages := FinalPages(original, plan);
    assert Planned(original, plan[p := join], p, mayMerge) by {
      BreakBlocks(original, plan, p, mayMerge);
      PlannedStep(original, plan, p, mayMerge, join);
    }
    if join.Some? {
      FinalStep(original, plan, p, mayMerge, join.value);
    } else {
      assert plan[p := None] == plan;
    }
  }

  class Document {
    var pages: seq<Page>

    /** Joins the tables at the break before page p, if they may be merged. */
    method MergeAtBreak(p: nat, mayMerge: Oracle) returns (ghost join: Option<Join>)
      requires p < |pages|
      modifies this
      ensures BreakMade(old(pages), pages, p, mayMerge, join)
    {
      join := None;
      if p == 0 { return; }
      if pages[p].blocks == [] || !pages[p].blocks[0].Table? { return; }
      if pages[p - 1].blocks == [] || !LastBlock(pages[p - 1]).Table? { return; }
      var current, previous := pages[p].blocks[0], LastBlock(pages[p - 1]);
      if !mayMerge(p, current, previous) { return; }
      var mergedRows, headerCount := PerformTableMerge(previous.rows, current.rows);
      join := Some(Join(headerCount, mergedRows));
      ReplaceTables(p, mergedRows);
    }

    /** Puts the merged rows into the table before the break and empties the one behind it. */
    method ReplaceTables(p: nat, mergedRows: seq<HtmlRow>)
      requires 0 < p < |pages| && pages[p].blocks != [] && pages[p].blocks[0].Table?
      requires pages[p - 1].blocks != [] && LastBlock(pages[p - 1]).Table?
      modifies this
      ensures pages == MergedPages(old(pages), p, mergedRows)
    {
      var last := |pages[p - 1].blocks| - 1;
      var previous := pages[p - 1].blocks[last];
      pages := pages[p - 1 := Page(pages[p - 1].blocks[last := previous.(rows := mergedRows)])];
      pages := pages[p := Page(pages[p].blocks[0 := Table([], true)])];
    }

    /** Merges tables across page breaks from the last page to the first. */
    method MergeTables(mayMerge: Oracle) returns (ghost plan: Plan)
      modifies this
      ensures Planned(old(pages), plan, 0, mayMerge)
      ensures pages == FinalPages(old(pages), plan)
      ensures Conserved(old(pages), plan, pages)
    {
      ghost var original := pages;
      plan := seq(|pages| + 1, _ => None);
      NothingPlanned(pages, plan, mayMerge);
      var p: nat := |pages|;
      while p > 0
        invariant p <= |original|
        invariant Planned(original, plan, p, mayMerge) && pages == FinalPages(original, plan)
      {
        p := p - 1;
        ghost var join := MergeAtBreak(p, mayMerge);
        BreakStep(original, plan, p, mayMerge, pages, join);
        plan := plan[p := join];
      }
      RowsAreConserved(original, plan, mayMerge);
    }
  }

  lemma NothingPlanned(pages: seq<Page>, plan: Plan, mayMerge: Oracle)
    requires |plan| == |pages| + 1 && forall p | 0 <= p <= |pages| :: plan[p].None?
    ensures Planned(pages, plan, |pages|, mayMerge) && FinalPages(pages, plan) == pages
  {
    forall p | 0 <= p < |pages|
      ensures FinalPage(pages, plan, p) == pages[p]
    {
      assert forall b | 0 <= b < |pages[p].blocks| :: FinalBlock(pages, plan, p, b) == pages[p].blocks[b];
    }
  }

  // ----- conservation of rows

  /** The rows of a page behind the first `header` of what follows them. */
  function WithoutHeader(rows: seq<HtmlRow>, entry: Option<Join>): seq<HtmlRow> {
    if entry.Some? && entry.value.header <= |rows| then rows[entry.value.header..] else rows
  }

  /** All rows from page p on: those of the page, and then the later ones without the header dropped at the break. */
  function Remaining(pages: seq<Page>, plan: Plan, p: nat): seq<HtmlRow>
    requires |plan| == |pages| + 1 && p <= |pages|
    decreases |pages| - p
  {
    if p == |pages| then []
    else RowsOfBlocks(pages[p].blocks) + WithoutHeader(Remaining(pages, plan, p + 1), plan[p + 1])
  }

  /** The header dropped at the break before page p has at most five rows, and each repeats the texts of the row at
      the same position of the table it was joined to. */
  ghost predicate HeaderRepeats(pages: seq<Page>, plan: Plan, p: nat)
    requires |plan| == |pages| + 1 && 0 < p < |pages|
  {
    plan[p].Some? ==>
      && pages[p - 1].blocks != []
      && var rows, header := BlockRows(LastBlock(pages[p - 1])), plan[p].value.header;
        && header <= MAX_HEADER_ROWS && header <= |rows| && header <= |Remaining(pages, plan, p)|
        && forall i | 0 <= i < header :: RowsLookAlike(rows[i], Remaining(pages, plan, p)[i])
  }

  /** In reading order the document has exactly its original rows without the dropped headers. */
  ghost predicate Conserved(pages: seq<Page>, plan: Plan, after: seq<Page>)
    requires |plan| == |pages| + 1
  {
    && SameRows(AllRows(after), Remaining(pages, plan, 0))
    && forall p | 0 < p < |pages| :: HeaderRepeats(pages, plan, p)
  }

  /** The blocks of page p when its break comes up. */
  function OpenBlocks(pages: seq<Page>, plan: Plan, p: nat): seq<Block>
    requires |plan| == |pages| + 1 && p < |pages|
  {
    var blocks := pages[p].blocks;
    if blocks == [] then [] else blocks[|blocks| - 1 := Upper(pages, plan, p)]
  }

  /** The rows from page p on at that moment. */
  function OpenRows(pages: seq<Page>, plan: Plan, p: nat): seq<HtmlRow>
    requires |plan| == |pages| + 1 && p <= |pages|
  {
    if p == |pages| then []
    else RowsOfBlocks(OpenBlocks(pages, plan, p)) + AllRows(FinalPages(pages, plan)[p + 1..])
  }

  lemma FinalFromOpen(pages: seq<Page>, plan: Plan, p: nat)
    requires |plan| == |pages| + 1 && p < |pages|
    ensures var open, final := OpenBlocks(pages, plan, p), FinalPage(pages, plan, p).blocks;
      final == if open != [] && plan[p].Some? then [Table([], true)] + open[1..] else open
    ensures pages[p].blocks != [] ==> OpenBlocks(pages, plan, p)[0] == Lower(pages, plan, p)
  {
    var open, final := OpenBlocks(pages, plan, p), FinalPage(pages, plan, p).blocks;
    assert forall b | 0 <= b < |open| :: final[b] == if b == 0 && plan[p].Some? then Table([], true) else open[b];
  }

  lemma SingleRows(page: Page, block: Block)
    ensures AllRows([page]) == RowsOfBlocks(page.blocks)
    ensures RowsOfBlocks([block]) == BlockRows(block)
  {
    assert [page][..0] == [] && [block][..0] == [];
  }

  lemma FirstRows(page: Page, rest: seq<Page>)
    ensures AllRows([page] + rest) == RowsOfBlocks(page.blocks) + AllRows(rest)
  {
    AllRowsAppend([page], rest);
    SingleRows(page, Other(""));
  }

  lemma FirstBlockRows(block: Block, rest: seq<Block>)
    ensures RowsOfBlocks([block] + rest) == BlockRows(block) + RowsOfBlocks(rest)
  {
    RowsOfBlocksAppend([block], rest);
    SingleRows(Page([]), block);
  }

  lemma FinalSuffix(pages: seq<Page>, plan: Plan, p: nat)
    requires |plan| == |pages| + 1 && p < |pages|
    ensures AllRows(FinalPages(pages, plan)[p..]) ==
      RowsOfBlocks(FinalPage(pages, plan, p).blocks) + AllRows(FinalPages(pages, plan)[p + 1..])
  {
    var final := FinalPages(pages, plan);
    assert final[p..] == [FinalPage(pages, plan, p)] + final[p + 1..];
    FirstRows(FinalPage(pages, plan, p), final[p + 1..]);
  }

  lemma EmptiedFirst(blocks: seq<Block>)
    requires blocks != []
    ensures RowsOfBlocks(blocks) == BlockRows(blocks[0]) + RowsOfBlocks([Table([], true)] + blocks[1..])
  {
    var rest := blocks[1..];
    assert blocks == [blocks[0]] + rest;
    FirstBlockRows(blocks[0], rest);
    FirstBlockRows(Table([], true), rest);
    assert [] + RowsOfBlocks(rest) == RowsOfBlocks(rest);
  }

  /** Behind the break before page p, the rows are those at the break without the table that was merged away. */
  lemma RowsBehindBreak(pages: seq<Page>, plan: Plan, p: nat)
    requires |plan| == |pages| + 1 && p < |pages| && (plan[p].Some? ==> pages[p].blocks != [])
    ensures var rows, later := OpenRows(pages, plan, p), AllRows(FinalPages(pages, plan)[p..]);
      if plan[p].None? then later == rows else rows == BlockRows(Lower(pages, plan, p)) + later
  {
    var open := OpenBlocks(pages, plan, p);
    FinalFromOpen(pages, plan, p);
    FinalSuffix(pages, plan, p);
    if plan[p].Some? {
      EmptiedFirst(open);
      Assoc(BlockRows(open[0]), RowsOfBlocks([Table([], true)] + open[1..]), AllRows(FinalPages(pages, plan)[p + 1..]));
    }
  }

  lemma JoinedSame(rows1: seq<HtmlRow>, rows2: seq<HtmlRow>, header: nat, merged: seq<HtmlRow>)
    requires Joined(rows1, rows2, header, merged)
    ensures SameRows(merged, rows1 + rows2[header..])
  {
    var both := rows1 + rows2[header..];
    forall k | 0 <= k < |merged|
      ensures SameContent(merged[k], both[k])
    {
      if k < |rows1| {
        assert SameContent(rows1[k], merged[k]);
      } else {
        var i := k - |rows1| + header;
        assert both[k] == rows2[i] && SameContent(rows2[i], merged[|rows1| + i - header]);
      }
    }
    SameRowByRow(merged, both);
  }

  /** front + merged + later, where merged is rows1 and the tail of rows2, has the rows of both without the header. */
  lemma MergedInPlace(front: seq<HtmlRow>, rows1: seq<HtmlRow>, rows2: seq<HtmlRow>, header: nat,
                      merged: seq<HtmlRow>, later: seq<HtmlRow>)
    requires Joined(rows1, rows2, header, merged)
    ensures header <= |rows2|
    ensures SameRows(front + merged + later, (front + rows1) + (rows2 + later)[header..])
  {
    JoinedSame(rows1, rows2, header, merged);
    BareInPlace(front, merged, rows1 + rows2[header..], later);
    assert (rows2 + later)[header..] == rows2[header..] + later;
    Regroup(front, rows1, rows2[header..], later);
  }

  lemma BareInPlace(front: seq<HtmlRow>, a: seq<HtmlRow>, b: seq<HtmlRow>, back: seq<HtmlRow>)
    requires SameRows(a, b)
    ensures SameRows(front + a + back, front + b + back)
  {
    BareRowsAppend(front, a);
    BareRowsAppend(front, b);
    BareRowsAppend(front + a, back);
    BareRowsAppend(front + b, back);
  }

  lemma LastReplaced(blocks: seq<Block>, last: Block)
    requires blocks != []
    ensures RowsOfBlocks(blocks[|blocks| - 1 := last]) == RowsOfBlocks(blocks[..|blocks| - 1]) + BlockRows(last)
  {
    var l := |blocks| - 1;
    assert blocks[l := last][..l] == blocks[..l];
  }

  lemma OpenRowsUnmerged(pages: seq<Page>, plan: Plan, p: nat)
    requires |plan| == |pages| + 1 && p < |pages| && plan[p + 1].None?
    ensures OpenRows(pages, plan, p) == RowsOfBlocks(pages[p].blocks) + OpenRows(pages, plan, p + 1)
  {
    assert OpenBlocks(pages, plan, p) == pages[p].blocks;
    if p + 1 < |pages| {
      RowsBehindBreak(pages, plan, p + 1);
    }
  }

  lemma OpenRowsMerged(pages: seq<Page>, plan: Plan, p: nat, mayMerge: Oracle)
    requires Planned(pages, plan, 0, mayMerge) && p < |pages| && plan[p + 1].Some?
    ensures SameRows(OpenRows(pages, plan, p),
      RowsOfBlocks(pages[p].blocks) + WithoutHeader(OpenRows(pages, plan, p + 1), plan[p + 1]))
  {
    assert BreakDone(pages, plan, p + 1, mayMerge);
    RowsBehindBreak(pages, plan, p + 1);
    var blocks, join := pages[p].blocks, plan[p + 1].value;
    var rows1, rows2 := LastBlock(pages[p]).rows, Lower(pages, plan, p + 1).rows;
    var later := AllRows(FinalPages(pages, plan)[p + 1..]);
    LastReplaced(blocks, Upper(pages, plan, p));
    MergedInPlace(RowsOfBlocks(blocks[..|blocks| - 1]), rows1, rows2, join.header, join.rows, later);
  }

  lemma WithoutHeaderSame(a: seq<HtmlRow>, b: seq<HtmlRow>, entry: Option<Join>)
    requires SameRows(a, b)
    ensures SameRows(WithoutHeader(a, entry), WithoutHeader(b, entry))
  {
    assert |a| == |BareRows(a)| && |b| == |BareRows(b)|;
    if entry.Some? && entry.value.header <= |a| {
      BareRowsDrop(a, entry.value.header);
      BareRowsDrop(b, entry.value.header);
    }
  }

  /** The rows from page p on are those of the page and then the later ones without the dropped header. */
  ghost predicate OpensAt(pages: seq<Page>, plan: Plan, p: nat)
    requires |plan| == |pages| + 1 && p < |pages|
  {
    SameRows(OpenRows(pages, plan, p),
             RowsOfBlocks(pages[p].blocks) + WithoutHeader(OpenRows(pages, plan, p + 1), plan[p + 1]))
  }

  lemma OpenRowsStep(pages: seq<Page>, plan: Plan, p: nat, mayMerge: Oracle)
    requires Planned(pages, plan, 0, mayMerge) && p < |pages|
    ensures OpensAt(pages, plan, p)
  {
    if plan[p + 1].None? {
      OpenRowsUnmerged(pages, plan, p);
    } else {
      OpenRowsMerged(pages, plan, p, mayMerge);
    }
  }

  lemma BareBehind(own: seq<HtmlRow>, rows: seq<HtmlRow>, entry: Option<Join>)
    ensures BareRows(own + WithoutHeader(rows, entry)) == BareRows(own) + WithoutHeader(BareRows(rows), entry)
  {
    BareRowsAppend(own, WithoutHeader(rows, entry));
    assert |BareRows(rows)| == |rows|;
    if entry.Some? && entry.value.header <= |rows| {
      BareRowsDrop(rows, entry.value.header);
    }
  }

  /** The rows from each page on, as a list over the pages, are those of the page before the later ones. */
  ghost predicate Follows(rows: seq<seq<HtmlRow>>, own: seq<seq<HtmlRow>>, plan: Plan, k: nat)
    requires |rows| == |plan| == |own| + 1 && k < |own|
  {
    rows[k] == own[k] + WithoutHeader(rows[k + 1], plan[k + 1])
  }

  lemma {:induction false} SameRecursion(a: seq<seq<HtmlRow>>, b: seq<seq<HtmlRow>>, own: seq<seq<HtmlRow>>,
                                         plan: Plan, p: nat)
    requires |a| == |b| == |plan| == |own| + 1 && p <= |own| && a[|own|] == b[|own|]
    requires forall k: nat | k < |own| :: Follows(a, own, plan, k) && Follows(b, own, plan, k)
    ensures a[p] == b[p]
    decreases |own| - p
  {
    if p == |own| {
    } else {
      SameRecursion(a, b, own, plan, p + 1);
      assert Follows(a, own, plan, p) && Follows(b, own, plan, p);
    }
  }

  ghost function BareOpen(pages: seq<Page>, plan: Plan): seq<seq<HtmlRow>>
    requires |plan| == |pages| + 1
  {
    seq(|plan|, k requires 0 <= k < |plan| => BareRows(OpenRows(pages, plan, k)))
  }

  ghost function BareRemaining(pages: seq<Page>, plan: Plan): seq<seq<HtmlRow>>
    requires |plan| == |pages| + 1
  {
    seq(|plan|, k requires 0 <= k < |plan| => BareRows(Remaining(pages, plan, k)))
  }

  ghost function BareOwn(pages: seq<Page>): seq<seq<HtmlRow>> {
    seq(|pages|, k requires 0 <= k < |pages| => BareRows(RowsOfBlocks(pages[k].blocks)))
  }

  lemma OpenFollows(pages: seq<Page>, plan: Plan, k: nat, mayMerge: Oracle)
    requires Planned(pages, plan, 0, mayMerge) && k < |pages|
    ensures Follows(BareOpen(pages, plan), BareOwn(pages), plan, k)
  {
    OpenRowsStep(pages, plan, k, mayMerge);
    BareBehind(RowsOfBlocks(pages[k].blocks), OpenRows(pages, plan, k + 1), plan[k + 1]);
  }

  lemma RemainingFollows(pages: seq<Page>, plan: Plan, k: nat)
    requires |plan| == |pages| + 1 && k < |pages|
    ensures Follows(BareRemaining(pages, plan), BareOwn(pages), plan, k)
  {
    BareBehind(RowsOfBlocks(pages[k].blocks), Remaining(pages, plan, k + 1), plan[k + 1]);
  }

  lemma OpenIsRemaining(pages: seq<Page>, plan: Plan, p: nat, mayMerge: Oracle)
    requires Planned(pages, plan, 0, mayMerge) && p <= |pages|
    ensures SameRows(OpenRows(pages, plan, p), Remaining(pages, plan, p))
  {
    var a, b, own := BareOpen(pages, plan), BareRemaining(pages, plan), BareOwn(pages);
    forall k: nat | k < |pages|
      ensures Follows(a, own, plan, k) && Follows(b, own, plan, k)
    {
      OpenFollows(pages, plan, k, mayMerge);
      RemainingFollows(pages, plan, k);
    }
    SameRecursion(a, b, own, plan, p);
  }

  lemma RowsBehindSame(rows: seq<HtmlRow>, own: seq<HtmlRow>, open: seq<HtmlRow>, rest: seq<HtmlRow>,
                       entry: Option<Join>)
    requires SameRows(rows, own + WithoutHeader(open, entry)) && SameRows(open, rest)
    ensures SameRows(rows, own + WithoutHeader(rest, entry))
  {
    WithoutHeaderSame(open, rest, entry);
    BareRowsAppend(own, WithoutHeader(open, entry));
    BareRowsAppend(own, WithoutHeader(rest, entry));
  }

  lemma HeaderIsRepeated(pages: seq<Page>, plan: Plan, p: nat, mayMerge: Oracle)
    requires Planned(pages, plan, 0, mayMerge) && 0 < p < |pages|
    ensures HeaderRepeats(pages, plan, p)
  {
    assert BreakDone(pages, plan, p, mayMerge);
    if plan[p].Some? {
      var rows1, rows2, join := LastBlock(pages[p - 1]).rows, Lower(pages, plan, p).rows, plan[p].value;
      var later, rest := AllRows(FinalPages(pages, plan)[p..]), Remaining(pages, plan, p);
      assert SameRows(rows2 + later, rest) by {
        RowsBehindBreak(pages, plan, p);
        OpenIsRemaining(pages, plan, p, mayMerge);
      }
      JoinRepeats(rows1, rows2, join, later, rest);
    }
  }

  lemma LooksAlikeStays(row1: HtmlRow, row2: HtmlRow, row3: HtmlRow)
    requires RowsLookAlike(row1, row2) && SameContent(row2, row3)
    ensures RowsLookAlike(row1, row3)
  {
  }

  lemma JoinRepeats(rows1: seq<HtmlRow>, rows2: seq<HtmlRow>, join: Join, later: seq<HtmlRow>, rest: seq<HtmlRow>)
    requires Joined(rows1, rows2, join.header, join.rows) && SameRows(rows2 + later, rest)
    ensures join.header <= MAX_HEADER_ROWS && join.header <= |rows1| && join.header <= |rest|
    ensures forall i | 0 <= i < join.header :: RowsLookAlike(rows1[i], rest[i])
  {
    assert |rest| == |BareRows(rest)| && |rows2 + later| == |BareRows(rows2 + later)|;
    forall i: nat | i < join.header
      ensures RowsLookAlike(rows1[i], rest[i])
    {
      assert (rows2 + later)[i] == rows2[i];
      SameRowAt(rows2 + later, rest, i);
      LooksAlikeStays(rows1[i], rows2[i], rest[i]);
    }
  }

  lemma RowsAreConserved(pages: seq<Page>, plan: Plan, mayMerge: Oracle)
    requires Planned(pages, plan, 0, mayMerge)
    ensures Conserved(pages, plan, FinalPages(pages, plan))
  {
    OpenIsRemaining(pages, plan, 0, mayMerge);
    assert BreakDone(pages, plan, 0, mayMerge);
    var final := FinalPages(pages, plan);
    if pages != [] {
      RowsBehindBreak(pages, plan, 0);
      assert final[0..] == final;
    }
    forall p | 0 < p < |pages|
      ensures HeaderRepeats(pages, plan, p)
    {
      HeaderIsRepeated(pages, plan, p, mayMerge);
    }
  }

  // ----- chains of tables

  /** The rows that the last table of page p ends up with: its own, and then those of the first table of the next
      page, with all that was merged into it, without the dropped header. */
  function ChainRows(pages: seq<Page>, plan: Plan, p: nat): seq<HtmlRow>
    requires |plan| == |pages| + 1 && p < |pages| && pages[p].blocks != []
    decreases |pages| - p, 0
  {
    var own := BlockRows(LastBlock(pages[p]));
    if plan[p + 1].Some? && p + 1 < |pages| && pages[p + 1].blocks != []
    then own + WithoutHeader(FirstRowsOf(pages, plan, p + 1), plan[p + 1])
    else own
  }

  function FirstRowsOf(pages: seq<Page>, plan: Plan, p: nat): seq<HtmlRow>
    requires |plan| == |pages| + 1 && p < |pages| && pages[p].blocks != []
    decreases |pages| - p, 1
  {
    if |pages[p].blocks| == 1 then ChainRows(pages, plan, p) else BlockRows(pages[p].blocks[0])
  }

  /** Every chain of merged tables collapses onto its first table. */
  lemma {:induction false} ChainCollapses(pages: seq<Page>, plan: Plan, p: nat, mayMerge: Oracle)
    requires Planned(pages, plan, 0, mayMerge) && p < |pages| && pages[p].blocks != []
    ensures SameRows(BlockRows(Upper(pages, plan, p)), ChainRows(pages, plan, p))
    ensures plan[p + 1].Some? ==> p + 1 < |pages| && pages[p + 1].blocks != []
    decreases |pages| - p
  {
    assert BreakDone(pages, plan, p + 1, mayMerge);
    if plan[p + 1].None? {
    } else {
      var join, next := plan[p + 1].value, p + 1;
      var own, lower := BlockRows(LastBlock(pages[p])), BlockRows(Lower(pages, plan, next));
      if |pages[next].blocks| == 1 {
        ChainCollapses(pages, plan, next, mayMerge);
      }
      var first := FirstRowsOf(pages, plan, next);
      assert SameRows(lower, first);
      JoinedSame(own, lower, join.header, join.rows);
      assert lower[join.header..] == WithoutHeader(lower, plan[next]);
      RowsBehindSame(join.rows, own, lower, first, plan[next]);
    }
  }
}
