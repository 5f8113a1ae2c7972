/** Merging detected tables that overlap strongly (MinerU/mineru/utils/model_utils.py). */
module LayoutTables {
  import opened Basics

  type Poly = p: seq<real> | |p| == 8 witness seq(8, _ => 0.0)

  datatype Region = Region(category: int, poly: Poly, score: real)

  const TABLE: int := 5

  datatype Bounds = Bounds(xmin: int, ymin: int, xmax: int, ymax: int) {
    function Area(): int {
      (xmax - xmin) * (ymax - ymin)
    }
  }

  function BoxOf(region: Region): Bounds {
    Bounds(Trunc(region.poly[0]), Trunc(region.poly[1]), Trunc(region.poly[4]), Trunc(region.poly[5]))
  }

  function BoxesOf(regions: seq<Region>): seq<Bounds> {
    seq(|regions|, k requires 0 <= k < |regions| => BoxOf(regions[k]))
  }

  /** The common part, if it has any area. */
  function Intersection(a: Bounds, b: Bounds): (r: (bool, Bounds))
    ensures r.0 ==> r.1.Area() > 0
  {
    var box := Bounds(Max(a.xmin, b.xmin), Max(a.ymin, b.ymin), Min(a.xmax, b.xmax), Min(a.ymax, b.ymax));
    if box.xmax <= box.xmin || box.ymax <= box.ymin then (false, box)
    else
      Positive(box.xmax - box.xmin, box.ymax - box.ymin);
      (true, box)
  }

  lemma Positive(a: int, b: int)
    requires a > 0 && b > 0
    ensures a * b > 0
  {
  }

  /** Intersection over union; zero without a common part or with no union area. */
  function Iou(a: Bounds, b: Bounds): real {
    var (overlap, common) := Intersection(a, b);
    var union := a.Area() + b.Area() - common.Area();
    if overlap && union > 0 then common.Area() as real / union as real else 0.0
  }

  // ----- what the overlap measures

  /** The unit cells of a box, named by their upper left corners. */
  ghost function Cells(box: Bounds): set<(int, int)> {
    set x, y | box.xmin <= x < box.xmax && box.ymin <= y < box.ymax :: (x, y)
  }

  /** Without negative coordinates the cells are those between the edges of the polygon, where the left and the upper
      edge may cut a cell. */
  lemma CellsOfRegion(region: Region, x: int, y: int)
    requires forall k | 0 <= k < 8 :: region.poly[k] >= 0.0
    ensures (x, y) in Cells(BoxOf(region)) <==>
      && region.poly[0] < (x + 1) as real <= region.poly[4]
      && region.poly[1] < (y + 1) as real <= region.poly[5]
  {
    CutAt(region.poly[0], x);
    CutAt(region.poly[4], x);
    CutAt(region.poly[1], y);
    CutAt(region.poly[5], y);
  }

  lemma CutAt(edge: real, x: int)
    requires edge >= 0.0
    ensures Trunc(edge) <= x <==> edge < (x + 1) as real
    ensures x < Trunc(edge) <==> (x + 1) as real <= edge
  {
    TruncTowardsZero(edge);
  }

  ghost function Column(x: int, top: int, height: nat): set<(int, int)> {
    set y | top <= y < top + height :: (x, y)
  }

  lemma {:induction false} ColumnSize(x: int, top: int, height: nat)
    ensures |Column(x, top, height)| == height
  {
    if height == 0 {
      assert Column(x, top, height) == {};
    } else {
      ColumnSize(x, top, height - 1);
      assert Column(x, top, height) == Column(x, top, height - 1) + {(x, top + height - 1)};
    }
  }

  lemma LastColumn(box: Bounds)
    requires box.xmin < box.xmax && box.ymin <= box.ymax
    ensures var (less, last) := (box.(xmax := box.xmax - 1), Column(box.xmax - 1, box.ymin, box.ymax - box.ymin));
      Cells(box) == Cells(less) + last && Cells(less) !! last
  {
  }

  lemma LastColumnArea(box: Bounds)
    ensures box.Area() == box.(xmax := box.xmax - 1).Area() + (box.ymax - box.ymin)
  {
  }

  /** The area is the number of cells. */
  lemma {:induction false} AreaCountsCells(box: Bounds)
    requires box.xmin <= box.xmax && box.ymin <= box.ymax
    ensures |Cells(box)| == box.Area()
    decreases box.xmax - box.xmin
  {
    if box.xmin == box.xmax {
      assert Cells(box) == {};
    } else {
      AreaCountsCells(box.(xmax := box.xmax - 1));
      ColumnSize(box.xmax - 1, box.ymin, box.ymax - box.ymin);
      LastColumn(box);
      LastColumnArea(box);
    }
  }

  lemma CommonCell(a: Bounds, b: Bounds, x: int, y: int)
    ensures (x, y) in Cells(a) && (x, y) in Cells(b) <==>
      Intersection(a, b).0 && (x, y) in Cells(Intersection(a, b).1)
  {
  }

  lemma CommonCells(a: Bounds, b: Bounds)
    ensures Cells(a) * Cells(b) == if Intersection(a, b).0 then Cells(Intersection(a, b).1) else {}
  {
    forall x, y
      ensures (x, y) in Cells(a) && (x, y) in Cells(b) <==>
        Intersection(a, b).0 && (x, y) in Cells(Intersection(a, b).1)
    {
      CommonCell(a, b, x, y);
    }
  }

  /** The part of the cells of two boxes that they have in common. */
  ghost function CellRatio(a: Bounds, b: Bounds): real {
    if Cells(a) + Cells(b) == {} then 0.0
    else |Cells(a) * Cells(b)| as real / |Cells(a) + Cells(b)| as real
  }

  lemma AreasCountCells(a: Bounds, b: Bounds)
    requires Intersection(a, b).0
    ensures |Cells(a) * Cells(b)| == Intersection(a, b).1.Area() > 0
    ensures |Cells(a) + Cells(b)| == a.Area() + b.Area() - Intersection(a, b).1.Area()
  {
    CommonCells(a, b);
    AreaCountsCells(a);
    AreaCountsCells(b);
    AreaCountsCells(Intersection(a, b).1);
  }

  /** The overlap of any two boxes counts their cells. */
  lemma IouCountsCells(a: Bounds, b: Bounds)
    ensures Iou(a, b) == CellRatio(a, b)
  {
    if Intersection(a, b).0 {
      AreasCountCells(a, b);
      SubsetSize(Cells(a) * Cells(b), Cells(a) + Cells(b));
    } else {
      CommonCells(a, b);
      NoneInCommon(a, b);
    }
  }

  lemma NoneInCommon(a: Bounds, b: Bounds)
    requires Cells(a) * Cells(b) == {}
    ensures CellRatio(a, b) == 0.0
  {
    assert |Cells(a) * Cells(b)| == 0;
  }

  lemma OverlapIsSymmetric(a: Bounds, b: Bounds)
    ensures Iou(a, b) == Iou(b, a)
  {
    IouCountsCells(a, b);
    IouCountsCells(b, a);
    assert Cells(a) * Cells(b) == Cells(b) * Cells(a);
    assert Cells(a) + Cells(b) == Cells(b) + Cells(a);
  }

  lemma SameCells(a: Bounds, b: Bounds)
    requires a.xmin < a.xmax && a.ymin < a.ymax && b.xmin < b.xmax && b.ymin < b.ymax && Cells(a) == Cells(b)
    ensures a == b
  {
    assert (a.xmin, a.ymin) in Cells(b) && (a.xmax - 1, a.ymax - 1) in Cells(b);
    assert (b.xmin, b.ymin) in Cells(a) && (b.xmax - 1, b.ymax - 1) in Cells(a);
  }

  lemma PartOfAll(part: nat, all: nat)
    requires part <= all && all > 0
    ensures part as real / all as real <= 1.0
    ensures part as real / all as real == 1.0 <==> part == all
  {
  }

  /** Boxes with an area overlap wholly only if they are equal. */
  lemma WholeOverlap(a: Bounds, b: Bounds)
    requires a.xmin < a.xmax && a.ymin < a.ymax && b.xmin < b.xmax && b.ymin < b.ymax
    ensures Iou(a, b) <= 1.0
    ensures Iou(a, b) == 1.0 <==> a == b
  {
    IouCountsCells(a, b);
    var both, either := Cells(a) * Cells(b), Cells(a) + Cells(b);
    assert (a.xmin, a.ymin) in either;
    SubsetSize(both, either);
    PartOfAll(|both|, |either|);
    if |both| == |either| {
      WholeSubset(both, either);
      assert Cells(a) == Cells(b);
      SameCells(a, b);
    }
    if a == b {
      assert both == either;
    }
  }

  lemma WholeSubset<T>(a: set<T>, b: set<T>)
    requires a <= b && |a| == |b|
    ensures a == b
  {
    if a != b {
      ProperSubsetSize(a, b);
    }
  }

  // ----- merged boxes

  function Union(a: Bounds, b: Bounds): Bounds {
    Bounds(Min(a.xmin, b.xmin), Min(a.ymin, b.ymin), Max(a.xmax, b.xmax), Max(a.ymax, b.ymax))
  }

  function WithBox(region: Region, box: Bounds): Region {
    var (x0, y0, x1, y1) := (box.xmin as real, box.ymin as real, box.xmax as real, box.ymax as real);
    region.(poly := [x0, y0, x1, y0, x1, y1, x0, y1])
  }

  lemma BoxOfWithBox(region: Region, box: Bounds)
    ensures BoxOf(WithBox(region, box)) == box
  {
    var poly := WithBox(region, box).poly;
    assert poly[0] == box.xmin as real && poly[1] == box.ymin as real;
    assert poly[4] == box.xmax as real && poly[5] == box.ymax as real;
  }

  // ----- the three lists

  ghost predicate Increasing(indices: seq<int>) {
    forall p, q | 0 <= p < q < |indices| :: indices[p] < indices[q]
  }

  /** tables[p] is the entry of the layout at indices[p]; the indices increase. */
  ghost predicate Aligned(layout: seq<Region>, tables: seq<Region>, indices: seq<int>) {
    && |indices| == |tables| && Increasing(indices)
    && forall p | 0 <= p < |indices| :: 0 <= indices[p] < |layout| && layout[indices[p]] == tables[p]
  }

  function Marks(n: nat, indices: seq<int>): seq<bool> {
    seq(n, k => k in indices)
  }

  function Unmarked(layout: seq<Region>, marks: seq<bool>): seq<Region>
    requires |layout| == |marks|
  {
    if layout == [] then []
    else
      Unmarked(layout[..|layout| - 1], marks[..|marks| - 1]) +
      if marks[|marks| - 1] then [] else [layout[|layout| - 1]]
  }

  /** The entries of the layout that no index names, in order. */
  function Others(layout: seq<Region>, indices: seq<int>): seq<Region> {
    Unmarked(layout, Marks(|layout|, indices))
  }

  lemma {:induction false} UnmarkedAppend(a: seq<Region>, b: seq<Region>, ma: seq<bool>, mb: seq<bool>)
    requires |a| == |ma| && |b| == |mb|
    ensures Unmarked(a + b, ma + mb) == Unmarked(a, ma) + Unmarked(b, mb)
  {
    if b == [] {
      assert a + b == a && ma + mb == ma;
    } else {
      UnmarkedAppend(a, b[..|b| - 1], ma, mb[..|mb| - 1]);
      LastOfAppend(a, b);
      LastOfAppend(ma, mb);
      Assoc(Unmarked(a, ma), Unmarked(b[..|b| - 1], mb[..|mb| - 1]), if mb[|mb| - 1] then [] else [b[|b| - 1]]);
    }
  }

  /** The new place of an index when entries lo < hi are deleted. */
  function Shift(k: int, lo: int, hi: int): int {
    if k < lo then k else if k < hi then k - 1 else k - 2
  }

  /** The indices other than lo and hi, each at its new place. */
  function Shifted(indices: seq<int>, lo: int, hi: int): seq<int> {
    if indices == [] then []
    else
      var k := indices[|indices| - 1];
      Shifted(indices[..|indices| - 1], lo, hi) + if k == lo || k == hi then [] else [Shift(k, lo, hi)]
  }

  /** Entry p of the shifted list is entry p, p + 1 or p + 2 of the old one. */
  function OldPlace(p: nat, i: nat, j: nat): nat
    requires i < j
  {
    if p < i then p else if p < j - 1 then p + 1 else p + 2
  }

  lemma {:induction false} ShiftedPrefix(indices: seq<int>, i: nat, j: nat, n: nat)
    requires i < j < |indices| && Increasing(indices) && n <= |indices|
    ensures var shifted := Shifted(indices[..n], indices[i], indices[j]);
      && |shifted| == (if n <= i then n else if n <= j then n - 1 else n - 2)
      && forall p: nat | p < |shifted| :: shifted[p] == Shift(indices[OldPlace(p, i, j)], indices[i], indices[j])
  {
    if n == 0 {
    } else {
      ShiftedPrefix(indices, i, j, n - 1);
      assert indices[..n][..n - 1] == indices[..n - 1];
      assert n - 1 != i ==> indices[n - 1] != indices[i];
      assert n - 1 != j ==> indices[n - 1] != indices[j];
    }
  }

  lemma ShiftedIs(indices: seq<int>, i: nat, j: nat)
    requires i < j < |indices| && Increasing(indices)
    ensures |Shifted(indices, indices[i], indices[j])| == |indices| - 2
    ensures forall p: nat | p < |indices| - 2 ::
      Shifted(indices, indices[i], indices[j])[p] == Shift(indices[OldPlace(p, i, j)], indices[i], indices[j])
  {
    ShiftedPrefix(indices, i, j, |indices|);
    assert indices[..|indices|] == indices;
  }

  lemma RemovedAt<T>(s: seq<T>, i: nat, j: nat, p: nat)
    requires i < j < |s| && p < |s| - 2
    ensures Remove(Remove(s, j), i)[p] == s[OldPlace(p, i, j)]
  {
  }

  // ----- one merge

  datatype Lists = Lists(layout: seq<Region>, tables: seq<Region>, indices: seq<int>)

  /** Tables i and j are deleted everywhere and their union is appended everywhere. */
  function MergeTwo(s: Lists, i: nat, j: nat): Lists
    requires Aligned(s.layout, s.tables, s.indices) && i < j < |s.tables|
  {
    var (lo, hi) := (s.indices[i], s.indices[j]);
    var region := WithBox(s.tables[i], Union(BoxOf(s.tables[i]), BoxOf(s.tables[j])));
    Lists(Remove(Remove(s.layout, hi), lo) + [region],
          Remove(Remove(s.tables, j), i) + [region],
          Shifted(s.indices, lo, hi) + [|s.layout| - 2])
  }

  /** Entry p of the merged lists is an old table, at the new place of its old entry. */
  lemma MergeTwoEntry(s: Lists, i: nat, j: nat, p: nat)
    requires Aligned(s.layout, s.tables, s.indices) && i < j < |s.tables| && p < |s.tables| - 2
    ensures var r, q := MergeTwo(s, i, j), OldPlace(p, i, j);
      && |r.indices| == |r.tables| == |s.tables| - 1
      && q < |s.tables| && q != i && q != j
      && r.tables[p] == s.tables[q]
      && r.indices[p] == Shift(s.indices[q], s.indices[i], s.indices[j])
  {
    ShiftedIs(s.indices, i, j);
    RemovedAt(s.tables, i, j, p);
  }

  /** The table appended last is table i with the least rectangle around both as its polygon. */
  lemma MergedTable(s: Lists, i: nat, j: nat)
    requires Aligned(s.layout, s.tables, s.indices) && i < j < |s.tables|
    ensures var r := MergeTwo(s, i, j);
      && r.tables != [] && r.layout != [] && r.layout[|r.layout| - 1] == r.tables[|r.tables| - 1]
      && r.indices[|r.indices| - 1] == |r.layout| - 1
      && var (merged, a, b) := (r.tables[|r.tables| - 1], BoxOf(s.tables[i]), BoxOf(s.tables[j]));
         && merged.category == s.tables[i].category && merged.score == s.tables[i].score
         && merged.poly[0] == merged.poly[6] == Min(a.xmin, b.xmin) as real
         && merged.poly[2] == merged.poly[4] == Max(a.xmax, b.xmax) as real
         && merged.poly[1] == merged.poly[3] == Min(a.ymin, b.ymin) as real
         && merged.poly[5] == merged.poly[7] == Max(a.ymax, b.ymax) as real
  {
    assert |s.layout| >= 2;
  }

  lemma ShiftInRange(s: Lists, i: nat, j: nat, q: nat)
    requires Aligned(s.layout, s.tables, s.indices) && i < j < |s.tables| && q < |s.tables| && q != i && q != j
    ensures var k := Shift(s.indices[q], s.indices[i], s.indices[j]);
      0 <= k < |s.layout| - 2 && MergeTwo(s, i, j).layout[k] == s.tables[q]
  {
    var lo, hi := s.indices[i], s.indices[j];
    assert (q < i ==> s.indices[q] < lo) && (i < q ==> lo < s.indices[q]);
    assert (q < j ==> s.indices[q] < hi) && (j < q ==> hi < s.indices[q]);
    assert lo < hi < |s.layout|;
    var k := Shift(s.indices[q], lo, hi);
    RemovedAt(s.layout, lo, hi, k);
  }

  lemma MergeTwoAligned(s: Lists, i: nat, j: nat)
    requires Aligned(s.layout, s.tables, s.indices) && i < j < |s.tables|
    ensures var r := MergeTwo(s, i, j); Aligned(r.layout, r.tables, r.indices) && |r.tables| == |s.tables| - 1
  {
    ShiftedIs(s.indices, i, j);
    var r := MergeTwo(s, i, j);
    var n := |s.tables| - 2;
    forall p: nat | p < n
      ensures 0 <= r.indices[p] < |s.layout| - 2 && r.layout[r.indices[p]] == r.tables[p]
    {
      MergeTwoEntry(s, i, j, p);
      ShiftInRange(s, i, j, OldPlace(p, i, j));
    }
    forall p: nat, q: nat | p < q < n
      ensures r.indices[p] < r.indices[q]
    {
      MergeTwoOrder(s, i, j, p, q);
    }
  }

  lemma MergeTwoOrder(s: Lists, i: nat, j: nat, p: nat, q: nat)
    requires Aligned(s.layout, s.tables, s.indices) && i < j < |s.tables| && p < q < |s.tables| - 2
    ensures var r := MergeTwo(s, i, j); q < |r.indices| && r.indices[p] < r.indices[q]
  {
    ShiftedIs(s.indices, i, j);
    MergeTwoEntry(s, i, j, p);
    MergeTwoEntry(s, i, j, q);
    ShiftKeepsOrder(s.indices, i, j, OldPlace(p, i, j), OldPlace(q, i, j));
  }

  lemma ShiftKeepsOrder(indices: seq<int>, i: nat, j: nat, p: nat, q: nat)
    requires Increasing(indices) && i < j < |indices| && p < q < |indices|
    requires p != i && p != j && q != i && q != j
    ensures Shift(indices[p], indices[i], indices[j]) < Shift(indices[q], indices[i], indices[j])
  {
    assert (p < i ==> indices[p] < indices[i]) && (i < p ==> indices[i] < indices[p]);
    assert (p < j ==> indices[p] < indices[j]) && (j < p ==> indices[j] < indices[p]);
    assert (q < i ==> indices[q] < indices[i]) && (i < q ==> indices[i] < indices[q]);
    assert (q < j ==> indices[q] < indices[j]) && (j < q ==> indices[j] < indices[q]);
    assert indices[p] < indices[q];
  }

  lemma UnmarkedRemove(layout: seq<Region>, marks: seq<bool>, k: nat)
    requires |layout| == |marks| && k < |layout| && marks[k]
    ensures Unmarked(Remove(layout, k), Remove(marks, k)) == Unmarked(layout, marks)
  {
    var front, frontMarks := layout[..k + 1], marks[..k + 1];
    assert layout == front + layout[k + 1..] && marks == frontMarks + marks[k + 1..];
    UnmarkedAppend(front, layout[k + 1..], frontMarks, marks[k + 1..]);
    UnmarkedAppend(layout[..k], layout[k + 1..], marks[..k], marks[k + 1..]);
    assert front[..k] == layout[..k] && frontMarks[..k] == marks[..k];
    assert Unmarked(front, frontMarks) == Unmarked(layout[..k], marks[..k]);
  }

  /** The new place of entry q, for q other than i and j. */
  function NewPlace(q: nat, i: nat, j: nat): int
    requires i < j
  {
    if q < i then q else if q < j then q - 1 else q - 2
  }

  lemma ShiftFollows(indices: seq<int>, i: nat, j: nat, q: nat)
    requires Increasing(indices) && i < j < |indices| && q < |indices| && q != i && q != j
    requires forall p | 0 <= p < |indices| :: indices[p] >= 0
    ensures 0 <= NewPlace(q, i, j) < |indices| - 2 && OldPlace(NewPlace(q, i, j), i, j) == q
    ensures Shift(indices[q], indices[i], indices[j]) >= 0
    ensures OldPlace(Shift(indices[q], indices[i], indices[j]), indices[i], indices[j]) == indices[q]
  {
    assert (q < i ==> indices[q] < indices[i]) && (i < q ==> indices[i] < indices[q]);
    assert (q < j ==> indices[q] < indices[j]) && (j < q ==> indices[j] < indices[q]);
    assert indices[i] < indices[j];
  }

  lemma ShiftedMembers(indices: seq<int>, i: nat, j: nat, k: nat)
    requires Increasing(indices) && i < j < |indices| && forall p | 0 <= p < |indices| :: indices[p] >= 0
    ensures indices[i] < indices[j]
    ensures k in Shifted(indices, indices[i], indices[j]) <==> OldPlace(k, indices[i], indices[j]) in indices
  {
    assert indices[i] < indices[j];
    if k in Shifted(indices, indices[i], indices[j]) {
      ShiftedComesFrom(indices, i, j, k);
    }
    if OldPlace(k, indices[i], indices[j]) in indices {
      ShiftedGoesTo(indices, i, j, k);
    }
  }

  lemma ShiftedComesFrom(indices: seq<int>, i: nat, j: nat, k: nat)
    requires Increasing(indices) && i < j < |indices| && forall p | 0 <= p < |indices| :: indices[p] >= 0
    requires indices[i] < indices[j] && k in Shifted(indices, indices[i], indices[j])
    ensures OldPlace(k, indices[i], indices[j]) in indices
  {
    ShiftedIs(indices, i, j);
    var shifted := Shifted(indices, indices[i], indices[j]);
    var p: nat :| p < |shifted| && shifted[p] == k;
    ShiftFollows(indices, i, j, OldPlace(p, i, j));
    assert OldPlace(k, indices[i], indices[j]) == indices[OldPlace(p, i, j)];
  }

  lemma ShiftedGoesTo(indices: seq<int>, i: nat, j: nat, k: nat)
    requires Increasing(indices) && i < j < |indices| && forall p | 0 <= p < |indices| :: indices[p] >= 0
    requires indices[i] < indices[j] && OldPlace(k, indices[i], indices[j]) in indices
    ensures k in Shifted(indices, indices[i], indices[j])
  {
    ShiftedIs(indices, i, j);
    var lo, hi := indices[i], indices[j];
    var q: nat :| q < |indices| && indices[q] == OldPlace(k, lo, hi);
    ShiftFollows(indices, i, j, q);
    assert Shifted(indices, lo, hi)[NewPlace(q, i, j)] == Shift(indices[q], lo, hi) == k;
  }

  lemma MergeTwoMarks(s: Lists, i: nat, j: nat)
    requires Aligned(s.layout, s.tables, s.indices) && i < j < |s.tables|
    ensures var r := MergeTwo(s, i, j);
      Marks(|r.layout|, r.indices) ==
        Remove(Remove(Marks(|s.layout|, s.indices), s.indices[j]), s.indices[i]) + [true]
  {
    var r := MergeTwo(s, i, j);
    var lo, hi := s.indices[i], s.indices[j];
    var oldMarks := Marks(|s.layout|, s.indices);
    var expected := Remove(Remove(oldMarks, hi), lo) + [true];
    forall k: nat | k < |s.layout| - 2
      ensures expected[k] == (k in r.indices)
    {
      RemovedAt(oldMarks, lo, hi, k);
      ShiftedMembers(s.indices, i, j, k);
    }
    assert r.indices[|r.indices| - 1] == |s.layout| - 2;
  }

  lemma MergeTwoKeepsOthers(s: Lists, i: nat, j: nat)
    requires Aligned(s.layout, s.tables, s.indices) && i < j < |s.tables|
    ensures var r := MergeTwo(s, i, j); Others(r.layout, r.indices) == Others(s.layout, s.indices)
  {
    MergeTwoMarks(s, i, j);
    var lo, hi := s.indices[i], s.indices[j];
    var marks := Marks(|s.layout|, s.indices);
    UnmarkedRemove(s.layout, marks, hi);
    UnmarkedRemove(Remove(s.layout, hi), Remove(marks, hi), lo);
    var rest, restMarks := Remove(Remove(s.layout, hi), lo), Remove(Remove(marks, hi), lo);
    var region := MergeTwo(s, i, j).layout[|s.layout| - 2];
    UnmarkedAppend(rest, [region], restMarks, [true]);
    assert Unmarked([region], [true]) == [];
  }

  // ----- what the final tables cover

  /** `box` contains the boxes of the group, and each of its sides is a side of one of them. */
  ghost predicate IsHull(box: Bounds, boxes: seq<Bounds>, group: set<nat>) {
    && (forall o | o in group :: o < |boxes| && box.xmin <= boxes[o].xmin && box.ymin <= boxes[o].ymin
                                && boxes[o].xmax <= box.xmax && boxes[o].ymax <= box.ymax)
    && (exists o :: o in group && o < |boxes| && boxes[o].xmin == box.xmin)
    && (exists o :: o in group && o < |boxes| && boxes[o].ymin == box.ymin)
    && (exists o :: o in group && o < |boxes| && boxes[o].xmax == box.xmax)
    && (exists o :: o in group && o < |boxes| && boxes[o].ymax == box.ymax)
  }

  /** The groups divide the n original tables among the current ones; each current box is the hull of its group. */
  ghost predicate Grouped(original: seq<Bounds>, boxes: seq<Bounds>, groups: seq<set<nat>>) {
    && |groups| == |boxes|
    && (forall p | 0 <= p < |boxes| :: IsHull(boxes[p], original, groups[p]))
    && (forall p, q | 0 <= p < q < |groups| :: groups[p] !! groups[q])
    && (forall o: nat | o < |original| :: InSomeGroup(groups, o))
  }

  ghost predicate InSomeGroup(groups: seq<set<nat>>, o: nat) {
    exists p :: 0 <= p < |groups| && o in groups[p]
  }

  /** Every original table lies inside some current one. */
  lemma EveryTableIsCovered(original: seq<Bounds>, boxes: seq<Bounds>, groups: seq<set<nat>>, o: nat) returns (p: nat)
    requires Grouped(original, boxes, groups) && o < |original|
    ensures p < |boxes| && Union(boxes[p], original[o]) == boxes[p]
    ensures forall q | 0 <= q < |groups| && o in groups[q] :: q == p
  {
    assert InSomeGroup(groups, o);
    p :| 0 <= p < |groups| && o in groups[p];
    assert IsHull(boxes[p], original, groups[p]);
    assert forall q | 0 <= q < |groups| && q != p :: groups[q] !! groups[p];
  }

  lemma HullOfUnion(a: Bounds, b: Bounds, boxes: seq<Bounds>, ga: set<nat>, gb: set<nat>)
    requires IsHull(a, boxes, ga) && IsHull(b, boxes, gb)
    ensures IsHull(Union(a, b), boxes, ga + gb)
  {
    var u := Union(a, b);
    var o1 :| o1 in (if a.xmin < b.xmin then ga else gb) && o1 < |boxes| && boxes[o1].xmin == u.xmin;
    var o2 :| o2 in (if a.ymin < b.ymin then ga else gb) && o2 < |boxes| && boxes[o2].ymin == u.ymin;
    var o3 :| o3 in (if a.xmax > b.xmax then ga else gb) && o3 < |boxes| && boxes[o3].xmax == u.xmax;
    var o4 :| o4 in (if a.ymax > b.ymax then ga else gb) && o4 < |boxes| && boxes[o4].ymax == u.ymax;
    assert o1 in ga + gb && o2 in ga + gb && o3 in ga + gb && o4 in ga + gb;
  }

  function MergeGroups(groups: seq<set<nat>>, i: nat, j: nat): seq<set<nat>>
    requires i < j < |groups|
  {
    Remove(Remove(groups, j), i) + [groups[i] + groups[j]]
  }

  lemma MergeGroupsDisjoint(groups: seq<set<nat>>, i: nat, j: nat)
    requires i < j < |groups| && forall p, q | 0 <= p < q < |groups| :: groups[p] !! groups[q]
    ensures var merged := MergeGroups(groups, i, j); forall p, q | 0 <= p < q < |merged| :: merged[p] !! merged[q]
  {
    var merged := MergeGroups(groups, i, j);
    forall p: nat, q: nat | p < q < |merged|
      ensures merged[p] !! merged[q]
    {
      var p' := OldPlace(p, i, j);
      RemovedAt(groups, i, j, p);
      if q < |merged| - 1 {
        RemovedAt(groups, i, j, q);
        assert groups[p'] !! groups[OldPlace(q, i, j)];
      } else {
        assert groups[p'] !! groups[i] && groups[p'] !! groups[j];
      }
    }
  }

  lemma MergeGroupsCover(groups: seq<set<nat>>, i: nat, j: nat, o: nat)
    requires i < j < |groups| && InSomeGroup(groups, o)
    ensures InSomeGroup(MergeGroups(groups, i, j), o)
  {
    var merged := MergeGroups(groups, i, j);
    var q: nat :| q < |groups| && o in groups[q];
    if q == i || q == j {
      assert o in merged[|merged| - 1];
    } else {
      RemovedAt(groups, i, j, NewPlace(q, i, j));
      assert o in merged[NewPlace(q, i, j)];
    }
  }

  lemma MergeTwoGrouped(s: Lists, i: nat, j: nat, original: seq<Bounds>, groups: seq<set<nat>>)
    requires Aligned(s.layout, s.tables, s.indices) && i < j < |s.tables|
    requires Grouped(original, BoxesOf(s.tables), groups)
    ensures Grouped(original, BoxesOf(MergeTwo(s, i, j).tables), MergeGroups(groups, i, j))
  {
    var r, merged := MergeTwo(s, i, j), MergeGroups(groups, i, j);
    forall p: nat | p < |r.tables|
      ensures IsHull(BoxesOf(r.tables)[p], original, merged[p])
    {
      if p < |r.tables| - 1 {
        RemovedAt(s.tables, i, j, p);
        RemovedAt(groups, i, j, p);
        assert IsHull(BoxesOf(s.tables)[OldPlace(p, i, j)], original, groups[OldPlace(p, i, j)]);
      } else {
        BoxOfWithBox(s.tables[i], Union(BoxOf(s.tables[i]), BoxOf(s.tables[j])));
        HullOfUnion(BoxesOf(s.tables)[i], BoxesOf(s.tables)[j], original, groups[i], groups[j]);
      }
    }
    MergeGroupsDisjoint(groups, i, j);
    forall o: nat | o < |original|
      ensures InSomeGroup(merged, o)
    {
      MergeGroupsCover(groups, i, j, o);
    }
  }

  // ----- the code

  /** No two tables among those already compared exceed the threshold. */
  ghost predicate LowBefore(boxes: seq<Bounds>, threshold: real, i: int, j: int) {
    forall p, q | 0 <= p < q < |boxes| && (p < i || (p == i && q < j)) :: CellRatio(boxes[p], boxes[q]) <= threshold
  }

  lemma LowStep(boxes: seq<Bounds>, threshold: real, i: nat, j: nat)
    requires i < j < |boxes| && LowBefore(boxes, threshold, i, j) && CellRatio(boxes[i], boxes[j]) <= threshold
    ensures LowBefore(boxes, threshold, i, j + 1)
  {
  }

  lemma LowRow(boxes: seq<Bounds>, threshold: real, i: nat)
    requires LowBefore(boxes, threshold, i, |boxes|)
    ensures LowBefore(boxes, threshold, i + 1, i + 2)
  {
  }

  lemma LowEnd(boxes: seq<Bounds>, threshold: real, i: nat)
    requires LowBefore(boxes, threshold, i, i + 1) && i >= |boxes| - 1
    ensures AllLow(boxes, threshold)
  {
  }

  ghost predicate AllLow(boxes: seq<Bounds>, threshold: real) {
    forall p, q | 0 <= p < q < |boxes| :: CellRatio(boxes[p], boxes[q]) <= threshold
  }

  /** The first pair, in order of i and then j, whose common cells are too large a part of all its cells. */
  ghost predicate FirstHigh(boxes: seq<Bounds>, threshold: real, i: nat, j: nat) {
    i < j < |boxes| && CellRatio(boxes[i], boxes[j]) > threshold && LowBefore(boxes, threshold, i, j)
  }

  /** One merge, of the first pair that overlaps too much. */
  ghost predicate MergesFirst(s: Lists, t: Lists, threshold: real) {
    exists i, j :: FirstHigh(BoxesOf(s.tables), threshold, i, j) && Merges(s, t, i, j)
  }

  ghost predicate Merges(s: Lists, t: Lists, i: nat, j: nat) {
    Aligned(s.layout, s.tables, s.indices) && i < j < |s.tables| && t == MergeTwo(s, i, j)
  }

  /** The merges that lead from s to t. */
  ghost predicate MergeRun(run: seq<Lists>, s: Lists, t: Lists, threshold: real) {
    && run != [] && run[0] == s && run[|run| - 1] == t
    && forall n | 0 <= n < |run| - 1 :: MergesFirst(run[n], run[n + 1], threshold)
  }

  lemma MergeRunOn(run: seq<Lists>, s: Lists, t: Lists, threshold: real, i: nat, j: nat)
    requires MergeRun(run, s, t, threshold) && Aligned(t.layout, t.tables, t.indices)
    requires FirstHigh(BoxesOf(t.tables), threshold, i, j)
    ensures MergeRun(run + [MergeTwo(t, i, j)], s, MergeTwo(t, i, j), threshold)
  {
    var u := MergeTwo(t, i, j);
    assert Merges(t, u, i, j);
    assert MergesFirst(t, u, threshold);
  }

  /** From s0 to s, entries that are not tables stayed in order, and every table is the hull of a group of tables. */
  ghost predicate MergedFrom(s0: Lists, s: Lists, groups: seq<set<nat>>) {
    && Aligned(s.layout, s.tables, s.indices)
    && Others(s.layout, s.indices) == Others(s0.layout, s0.indices)
    && Grouped(BoxesOf(s0.tables), BoxesOf(s.tables), groups)
  }

  lemma MergeTwoMerges(s0: Lists, s: Lists, groups: seq<set<nat>>, i: nat, j: nat)
    requires MergedFrom(s0, s, groups) && i < j < |s.tables|
    ensures MergedFrom(s0, MergeTwo(s, i, j), MergeGroups(groups, i, j))
    ensures |MergeTwo(s, i, j).tables| == |s.tables| - 1
  {
    MergeTwoAligned(s, i, j);
    MergeTwoKeepsOthers(s, i, j);
    MergeTwoGrouped(s, i, j, BoxesOf(s0.tables), groups);
  }

  class TableLists {
    var layoutRes: seq<Region>
    var tableRes: seq<Region>
    var tableIndices: seq<int>

    constructor (layout: seq<Region>)
      ensures layoutRes == layout && tableRes == [] && tableIndices == []
    {
      layoutRes, tableRes, tableIndices := layout, [], [];
    }

    ghost predicate Valid()
      reads this
    {
      Aligned(layoutRes, tableRes, tableIndices)
    }

    /** Collects the tables of the layout and their places. */
    method CategorizeTables()
      requires tableRes == [] && tableIndices == []
      modifies this`tableRes, this`tableIndices
      ensures Valid()
      ensures forall k | 0 <= k < |layoutRes| :: k in tableIndices <==> layoutRes[k].category == TABLE
    {
      for i := 0 to |layoutRes|
        invariant Valid() && forall p | 0 <= p < |tableIndices| :: tableIndices[p] < i
        invariant forall k | 0 <= k < i :: k in tableIndices <==> layoutRes[k].category == TABLE
      {
        if layoutRes[i].category == TABLE {
          tableRes := tableRes + [layoutRes[i]];
          tableIndices := tableIndices + [i];
        }
      }
    }

    function State(): Lists
      reads this
    {
      Lists(layoutRes, tableRes, tableIndices)
    }

    method MergePair(i: nat, j: nat)
      requires Valid() && i < j < |tableRes|
      modifies this
      ensures State() == MergeTwo(old(State()), i, j)
    {
      var box := Union(BoxOf(tableRes[i]), BoxOf(tableRes[j]));
      var mergedTable := WithBox(tableRes[i], box);
      var lo, hi := tableIndices[i], tableIndices[j];
      layoutRes := Remove(layoutRes, hi);
      layoutRes := Remove(layoutRes, lo);
      layoutRes := layoutRes + [mergedTable];
      tableIndices := Shifted(tableIndices, lo, hi);
      tableIndices := tableIndices + [|layoutRes| - 1];
      tableRes := Remove(tableRes, j);
      tableRes := Remove(tableRes, i);
      tableRes := tableRes + [mergedTable];
    }

    /** Merges tables until no two of them overlap by more than the threshold. */
    method MergeHighIouTables(threshold: real) returns (ghost groups: seq<set<nat>>, ghost run: seq<Lists>)
      requires Valid()
      modifies this
      ensures MergeRun(run, old(State()), State(), threshold)
      ensures MergedFrom(old(State()), State(), groups)
      ensures AllLow(BoxesOf(tableRes), threshold)
    {
      ghost var start := State();
      groups := StartGroups(BoxesOf(tableRes));
      run := [start];
      if |tableRes| < 2 {
        return;
      }
      var merged := true;
      while merged
        invariant MergeRun(run, start, State(), threshold)
        invariant MergedFrom(start, State(), groups)
        invariant !merged ==> AllLow(BoxesOf(tableRes), threshold)
        decreases |tableRes|, merged
      {
        var i, j;
        merged, i, j := FindOverlap(threshold);
        if merged {
          MergeTwoMerges(start, State(), groups, i, j);
          MergeRunOn(run, start, State(), threshold, i, j);
          MergePair(i, j);
          run := run + [State()];
          groups := MergeGroups(groups, i, j);
        }
      }
    }

    /** The first pair of tables that overlaps too much. */
    method FindOverlap(threshold: real) returns (found: bool, i: nat, j: nat)
      ensures found ==> FirstHigh(BoxesOf(tableRes), threshold, i, j)
      ensures !found ==> AllLow(BoxesOf(tableRes), threshold)
    {
      var tableInfo := BoxesOf(tableRes);
      i, j := 0, 0;
      while i < |tableRes| - 1
        invariant LowBefore(tableInfo, threshold, i, i + 1)
      {
        j := i + 1;
        while j < |tableRes|
          invariant i < j <= |tableRes| && LowBefore(tableInfo, threshold, i, j)
        {
          IouCountsCells(tableInfo[i], tableInfo[j]);
          if Iou(tableInfo[i], tableInfo[j]) > threshold {
            return true, i, j;
          }
          LowStep(tableInfo, threshold, i, j);
          j := j + 1;
        }
        LowRow(tableInfo, threshold, i);
        i := i + 1;
      }
      LowEnd(tableInfo, threshold, i);
      return false, 0, 0;
    }
  }

  lemma StartGroups(boxes: seq<Bounds>) returns (groups: seq<set<nat>>)
    ensures Grouped(boxes, boxes, groups)
  {
    groups := seq(|boxes|, k requires 0 <= k < |boxes| => {k});
    forall o: nat | o < |boxes|
      ensures InSomeGroup(groups, o) && IsHull(boxes[o], boxes, groups[o])
    {
      assert o in groups[o];
    }
  }
}
