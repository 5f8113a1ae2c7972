/** Attaching captions and footnotes to bodies by reading order (MinerU/mineru/utils/magic_model_utils.py). */
module IndexMatching {

  /** A block with its position in reading order; `id` stands for everything else about it. */
  datatype Block = Block(index: int, id: nat)

  datatype Kind = TableCaption | Footnote | OtherKind

  /** The distances between two blocks: of their edges and of their centres. */
  datatype Metric = Metric(edge: (Block, Block) -> real, center: (Block, Block) -> real)

  // ----- effective index difference

  /** How many of lo, .., hi - 1 are object indices. */
  function CountIn(indices: set<int>, lo: int, hi: int): nat
    decreases hi - lo
  {
    if lo >= hi then 0 else (if lo in indices then 1 else 0) + CountIn(indices, lo + 1, hi)
  }

  /** The distance of two indices without the objects between them. */
  function EffectiveDiff(indices: set<int>, obj: int, sub: int): int {
    if obj == sub then 0
    else if obj < sub then sub - obj - CountIn(indices, obj + 1, sub)
    else obj - sub - CountIn(indices, sub + 1, obj)
  }

  method CalcEffectiveIndexDiff(indices: set<int>, obj: int, sub: int) returns (diff: int)
    ensures diff == EffectiveDiff(indices, obj, sub)
  {
    if obj == sub {
      return 0;
    }
    var start, end := if obj < sub then obj else sub, if obj < sub then sub else obj;
    var others := 0;
    var idx := start + 1;
    while idx < end
      invariant start < idx <= end
      invariant others + CountIn(indices, idx, end) == CountIn(indices, start + 1, end)
    {
      if idx in indices {
        others := others + 1;
      }
      idx := idx + 1;
    }
    return end - start - others;
  }

  lemma {:induction false} CountSplits(indices: set<int>, lo: int, mid: int, hi: int)
    requires lo <= mid <= hi
    ensures CountIn(indices, lo, hi) == CountIn(indices, lo, mid) + CountIn(indices, mid, hi)
    decreases mid - lo
  {
    if lo < mid {
      CountSplits(indices, lo + 1, mid, hi);
    }
  }

  lemma {:induction false} CountBound(indices: set<int>, lo: int, hi: int)
    requires lo <= hi
    ensures CountIn(indices, lo, hi) <= hi - lo
    decreases hi - lo
  {
    if lo < hi {
      CountBound(indices, lo + 1, hi);
    }
  }

  /** On either side of the object the difference grows from one subject to the next. */
  lemma DiffGrows(indices: set<int>, obj: int, near: int, far: int)
    requires near !in indices && (obj < near < far || far < near < obj)
    ensures EffectiveDiff(indices, obj, near) < EffectiveDiff(indices, obj, far)
  {
    if obj < near {
      CountSplits(indices, obj + 1, near, far);
      CountBound(indices, near + 1, far);
    } else {
      CountSplits(indices, far + 1, near, obj);
      CountBound(indices, far + 1, near);
      CountSplits(indices, near, near + 1, obj);
      assert CountIn(indices, near, near + 1) == 0;
    }
  }

  // ----- the nearest subjects of one object

  function Indices(blocks: seq<Block>): set<int> {
    set b | b in blocks :: b.index
  }

  /** Subjects have pairwise different indices, none of them the index of an object. */
  ghost predicate WellIndexed(subjects: seq<Block>, indices: set<int>) {
    && (forall i, k | 0 <= i < k < |subjects| :: subjects[i].index != subjects[k].index)
    && (forall i | 0 <= i < |subjects| :: subjects[i].index !in indices)
  }

  /** `best` lists, in order, exactly the subjects at the least difference. */
  ghost predicate IsBest(subjects: seq<Block>, indices: set<int>, obj: int, best: seq<nat>) {
    && (best == [] <==> subjects == [])
    && (forall i, k | 0 <= i < k < |best| :: best[i] < best[k])
    && (forall i: nat :: i in best <==> i < |subjects| && Nearest(subjects, indices, obj, i))
  }

  ghost predicate Nearest(subjects: seq<Block>, indices: set<int>, obj: int, i: nat)
    requires i < |subjects|
  {
    forall k | 0 <= k < |subjects| ::
      EffectiveDiff(indices, obj, subjects[i].index) <= EffectiveDiff(indices, obj, subjects[k].index)
  }

  /** More than two subjects are nearest to the object. */
  ghost predicate Crowded(subjects: seq<Block>, indices: set<int>, obj: int) {
    exists a: nat, b: nat, c: nat :: a < b < c < |subjects| && AllNearest(subjects, indices, obj, a, b, c)
  }

  ghost predicate AllNearest(subjects: seq<Block>, indices: set<int>, obj: int, a: nat, b: nat, c: nat)
    requires a < b < c < |subjects|
  {
    Nearest(subjects, indices, obj, a) && Nearest(subjects, indices, obj, b) && Nearest(subjects, indices, obj, c)
  }

  lemma CrowdedIsLong(subjects: seq<Block>, indices: set<int>, obj: int, best: seq<nat>)
    requires IsBest(subjects, indices, obj, best)
    ensures |best| > 2 <==> Crowded(subjects, indices, obj)
  {
    if |best| > 2 {
      assert best[0] in best && best[1] in best && best[2] in best;
      assert AllNearest(subjects, indices, obj, best[0], best[1], best[2]);
    }
    if a: nat, b: nat, c: nat :| a < b < c < |subjects| && AllNearest(subjects, indices, obj, a, b, c) {
      assert a in best && b in best && c in best;
      ThreeMembers(best, a, b, c);
    }
  }

  lemma ThreeMembers(s: seq<nat>, a: nat, b: nat, c: nat)
    requires a in s && b in s && c in s && a < b < c
    ensures |s| > 2
  {
    var i :| 0 <= i < |s| && s[i] == a;
    var j :| 0 <= j < |s| && s[j] == b;
    var k :| 0 <= k < |s| && s[k] == c;
  }

  /** One of the first n objects has more than two nearest subjects. */
  ghost predicate SomeCrowded(subjects: seq<Block>, indices: set<int>, objects: seq<Block>, n: nat) {
    exists k :: 0 <= k < n && k < |objects| && Crowded(subjects, indices, objects[k].index)
  }

  lemma SomeCrowdedStep(subjects: seq<Block>, indices: set<int>, objects: seq<Block>, n: nat)
    requires n < |objects|
    ensures SomeCrowded(subjects, indices, objects, n + 1) <==>
      SomeCrowded(subjects, indices, objects, n) || Crowded(subjects, indices, objects[n].index)
    ensures SomeCrowded(subjects, indices, objects, n + 1) ==> SomeCrowded(subjects, indices, objects, |objects|)
    ensures subjects == [] ==> !Crowded(subjects, indices, objects[n].index)
  {
    if k :| 0 <= k < n + 1 && k < |objects| && Crowded(subjects, indices, objects[k].index) {
      assert k < n ==> SomeCrowded(subjects, indices, objects, n);
    }
  }

  /** At most two subjects are nearest. */
  lemma AtMostTwoNearest(subjects: seq<Block>, indices: set<int>, obj: int, best: seq<nat>)
    requires WellIndexed(subjects, indices) && obj in indices && IsBest(subjects, indices, obj, best)
    ensures |best| <= 2
  {
    if |best| > 2 {
      assert best[0] in best && best[1] in best && best[2] in best;
      forall i, k | 0 <= i < 3 && 0 <= k < 3 && i != k
        ensures (subjects[best[i]].index < obj) != (subjects[best[k]].index < obj)
      {
        NearestOnOppositeSides(subjects, indices, obj, best[i], best[k]);
      }
      assert false;
    }
  }

  lemma NearestOnOppositeSides(subjects: seq<Block>, indices: set<int>, obj: int, i: nat, k: nat)
    requires WellIndexed(subjects, indices) && obj in indices && i < |subjects| && k < |subjects| && i != k
    requires Nearest(subjects, indices, obj, i) && Nearest(subjects, indices, obj, k)
    ensures (subjects[i].index < obj) != (subjects[k].index < obj)
  {
    var a, b := subjects[i].index, subjects[k].index;
    assert a != b && a != obj && b != obj;
    if obj < a < b || b < a < obj {
      DiffGrows(indices, obj, a, b);
    } else if obj < b < a || a < b < obj {
      DiffGrows(indices, obj, b, a);
    }
  }

  /** No other subject stands between the object and a nearest subject. */
  lemma NearestIsNeighbor(subjects: seq<Block>, indices: set<int>, obj: int, i: nat, k: nat)
    requires WellIndexed(subjects, indices) && i < |subjects| && k < |subjects|
    requires Nearest(subjects, indices, obj, i)
    ensures !(obj < subjects[k].index < subjects[i].index) && !(subjects[i].index < subjects[k].index < obj)
  {
    var a, b := subjects[i].index, subjects[k].index;
    if obj < b < a || a < b < obj {
      DiffGrows(indices, obj, b, a);
    }
  }

  /** Collects the subjects at the least difference in one pass. */
  method FindBest(subjects: seq<Block>, indices: set<int>, obj: int) returns (best: seq<nat>)
    ensures IsBest(subjects, indices, obj, best)
  {
    best := [];
    var minDiff := 0;
    for i := 0 to |subjects|
      invariant best == [] <==> i == 0
      invariant forall m, k | 0 <= m < k < |best| :: best[m] < best[k]
      invariant forall k: nat :: k in best <==>
        k < i && EffectiveDiff(indices, obj, subjects[k].index) == minDiff
      invariant forall k | 0 <= k < i :: minDiff <= EffectiveDiff(indices, obj, subjects[k].index)
    {
      var diff := CalcEffectiveIndexDiff(indices, obj, subjects[i].index);
      if best == [] || diff < minDiff {
        minDiff := diff;
        best := [i];
      } else if diff == minDiff {
        forall m | 0 <= m < |best|
          ensures best[m] < i
        {
          assert best[m] in best;
        }
        best := best + [i];
      }
    }
    if best != [] {
      assert best[0] in best;
    }
  }

  // ----- choosing between two

  /** The chosen one of one or two nearest subjects. */
  function Pick(subjects: seq<Block>, obj: Block, best: seq<nat>, kind: Kind, metric: Metric): (i: nat)
    requires 1 <= |best| <= 2 && forall k | 0 <= k < |best| :: best[k] < |subjects|
    ensures i in best
  {
    if |best| == 1 then best[0]
    else
      var (a, b) := (best[0], best[1]);
      var (ea, eb) := (metric.edge(obj, subjects[a]), metric.edge(obj, subjects[b]));
      if ea - eb > 2.0 || eb - ea > 2.0 then
        if ea <= eb then a else b
      else if kind == TableCaption then
        if subjects[a].index >= subjects[b].index then a else b
      else if kind == Footnote then
        if subjects[a].index <= subjects[b].index then a else b
      else
        if metric.center(obj, subjects[a]) <= metric.center(obj, subjects[b]) then a else b
  }

  /** The order of two tied subjects in the list does not matter unless their distances tie as well. */
  lemma PickIgnoresOrder(subjects: seq<Block>, obj: Block, a: nat, b: nat, kind: Kind, metric: Metric)
    requires a < |subjects| && b < |subjects| && a != b && subjects[a].index != subjects[b].index
    ensures Pick(subjects, obj, [a, b], kind, metric) == Pick(subjects, obj, [b, a], kind, metric) <==>
      var (ea, eb) := (metric.edge(obj, subjects[a]), metric.edge(obj, subjects[b]));
      ea - eb > 2.0 || eb - ea > 2.0 || kind != OtherKind ||
        metric.center(obj, subjects[a]) != metric.center(obj, subjects[b])
  {
  }

  // ----- all objects

  /** The objects of each subject, or the error raised for more than two nearest subjects. */
  datatype Outcome = Matched(objects: seq<seq<Block>>) | TooManyNearest

  /** Between two subjects i goes before j: nearer by more than 2 edge to edge, or else, for a caption of a table,
      with the larger index, for a footnote with the smaller index, and otherwise with the nearer centre. The first one
      in the list wins a tie. */
  ghost predicate Preferred(subjects: seq<Block>, obj: Block, kind: Kind, metric: Metric, i: nat, j: nat)
    requires i < |subjects| && j < |subjects|
  {
    var (di, dj) := (metric.edge(obj, subjects[i]), metric.edge(obj, subjects[j]));
    if di > dj + 2.0 || dj > di + 2.0 then di < dj
    else match kind
      case TableCaption => subjects[i].index > subjects[j].index || (subjects[i].index == subjects[j].index && i < j)
      case Footnote => subjects[i].index < subjects[j].index || (subjects[i].index == subjects[j].index && i < j)
      case OtherKind =>
        var (ci, cj) := (metric.center(obj, subjects[i]), metric.center(obj, subjects[j]));
        ci < cj || (ci == cj && i < j)
  }

  /** Subject i is the one the object is attached to: nearest, and preferred to every other nearest one. */
  ghost predicate AttachedTo(subjects: seq<Block>, indices: set<int>, obj: Block, kind: Kind, metric: Metric, i: nat) {
    && i < |subjects| && Nearest(subjects, indices, obj.index, i)
    && forall j: nat | j < |subjects| && j != i && Nearest(subjects, indices, obj.index, j) ::
         Preferred(subjects, obj, kind, metric, i, j)
  }

  lemma PickIsPreferred(subjects: seq<Block>, obj: Block, a: nat, b: nat, kind: Kind, metric: Metric)
    requires a < b < |subjects|
    ensures var i := Pick(subjects, obj, [a, b], kind, metric);
      Preferred(subjects, obj, kind, metric, i, if i == a then b else a)
  {
  }

  lemma PickIsAttached(subjects: seq<Block>, indices: set<int>, obj: Block, best: seq<nat>, kind: Kind, metric: Metric)
    requires IsBest(subjects, indices, obj.index, best) && 1 <= |best| <= 2
    requires forall k | 0 <= k < |best| :: best[k] < |subjects|
    ensures AttachedTo(subjects, indices, obj, kind, metric, Pick(subjects, obj, best, kind, metric))
  {
    var i := Pick(subjects, obj, best, kind, metric);
    forall j: nat | j < |subjects| && j != i && Nearest(subjects, indices, obj.index, j)
      ensures Preferred(subjects, obj, kind, metric, i, j)
    {
      assert i in best && j in best;
      assert best == [best[0], best[1]];
      PickIsPreferred(subjects, obj, best[0], best[1], kind, metric);
    }
  }

  /** An attached object and its subject have no other subject between them in reading order. */
  lemma AttachedIsNeighbor(subjects: seq<Block>, indices: set<int>, obj: Block, kind: Kind, metric: Metric, i: nat,
                           k: nat)
    requires WellIndexed(subjects, indices) && AttachedTo(subjects, indices, obj, kind, metric, i) && k < |subjects|
    ensures i < |subjects|
    ensures !(obj.index < subjects[k].index < subjects[i].index) && !(subjects[i].index < subjects[k].index < obj.index)
  {
    NearestIsNeighbor(subjects, indices, obj.index, i, k);
  }

  /** `owner` names the subject of each of the first n objects, and `lists` holds their objects in order. */
  ghost predicate Distributed(objects: seq<Block>, n: nat, owner: seq<nat>, lists: seq<seq<Block>>)
  {
    && |owner| == n <= |objects|
    && forall i | 0 <= i < |lists| :: lists[i] == OwnedBy(objects[..n], owner, i)
  }

  ghost function OwnedBy(objects: seq<Block>, owner: seq<nat>, i: nat): seq<Block>
    requires |owner| == |objects|
  {
    if objects == [] then []
    else
      var n := |objects| - 1;
      OwnedBy(objects[..n], owner[..n], i) + if owner[n] == i then [objects[n]] else []
  }

  lemma DistributedStep(objects: seq<Block>, n: nat, owner: seq<nat>, lists: seq<seq<Block>>, i: nat)
    requires n < |objects| && i < |lists| && Distributed(objects, n, owner, lists)
    ensures Distributed(objects, n + 1, owner + [i], lists[i := lists[i] + [objects[n]]])
  {
    var owner' := owner + [i];
    assert objects[..n + 1][..n] == objects[..n] && owner'[..n] == owner;
  }

  /** Every object is in exactly one list: list i holds those with owner i. */
  lemma {:induction false} OwnedByOne(objects: seq<Block>, owner: seq<nat>, n: nat) returns (lengths: seq<nat>)
    requires |owner| == |objects| && forall k | 0 <= k < |owner| :: owner[k] < n
    ensures |lengths| == n && forall i | 0 <= i < n :: lengths[i] == |OwnedBy(objects, owner, i)|
    ensures Sum(lengths) == |objects|
  {
    if objects == [] {
      lengths := seq(n, _ => 0);
      SumZero(n);
    } else {
      var m := |objects| - 1;
      lengths := OwnedByOne(objects[..m], owner[..m], n);
      SumIncrement(lengths, owner[m]);
      lengths := lengths[owner[m] := lengths[owner[m]] + 1];
    }
  }

  function Sum(s: seq<nat>): nat {
    if s == [] then 0 else Sum(s[..|s| - 1]) + s[|s| - 1]
  }

  lemma {:induction false} SumZero(n: nat)
    ensures Sum(seq(n, _ => 0)) == 0
  {
    if n == 0 {
    } else {
      SumZero(n - 1);
      var zeros, fewer := seq(n, _ => 0), seq(n - 1, _ => 0);
      assert zeros[..n - 1] == fewer;
    }
  }

  lemma {:induction false} SumIncrement(s: seq<nat>, i: nat)
    requires i < |s|
    ensures Sum(s[i := s[i] + 1]) == Sum(s) + 1
  {
    var t, n := s[i := s[i] + 1], |s| - 1;
    if i == n {
      assert t[..n] == s[..n];
    } else {
      SumIncrement(s[..n], i);
      assert t[..n] == s[..n][i := s[i] + 1];
    }
  }

  /** The subject for one object, or none when more than two are nearest. */
  method AttachObject(subjects: seq<Block>, indices: set<int>, obj: Block, kind: Kind, metric: Metric)
    returns (ok: bool, i: nat)
    requires subjects != [] && obj.index in indices
    ensures ok ==> i < |subjects| && AttachedTo(subjects, indices, obj, kind, metric, i)
    ensures !ok <==> Crowded(subjects, indices, obj.index)
    ensures WellIndexed(subjects, indices) ==> ok
  {
    var best := FindBest(subjects, indices, obj.index);
    assert forall k | 0 <= k < |best| :: best[k] in best;
    CrowdedIsLong(subjects, indices, obj.index, best);
    if |best| > 2 {
      if WellIndexed(subjects, indices) {
        AtMostTwoNearest(subjects, indices, obj.index, best);
      }
      return false, 0;
    }
    PickIsAttached(subjects, indices, obj, best, kind, metric);
    return true, Pick(subjects, obj, best, kind, metric);
  }

  /** Each of the first objects is attached to the subject that `owner` names. */
  ghost predicate OwnersAttached(subjects: seq<Block>, indices: set<int>, objects: seq<Block>, kind: Kind,
                                 metric: Metric, owner: seq<nat>) {
    && |owner| <= |objects|
    && forall k | 0 <= k < |owner| ::
         owner[k] < |subjects| && AttachedTo(subjects, indices, objects[k], kind, metric, owner[k])
  }

  lemma OwnersStep(subjects: seq<Block>, indices: set<int>, objects: seq<Block>, kind: Kind, metric: Metric,
                   owner: seq<nat>, i: nat)
    requires |owner| < |objects| && i < |subjects|
    requires OwnersAttached(subjects, indices, objects, kind, metric, owner)
    requires AttachedTo(subjects, indices, objects[|owner|], kind, metric, i)
    ensures OwnersAttached(subjects, indices, objects, kind, metric, owner + [i])
  {
  }

  /** Attaches each object to its subject; fails exactly if more than two subjects are nearest to some object. */
  method TieUpCategoryByIndex(subjects: seq<Block>, objects: seq<Block>, kind: Kind, metric: Metric)
    returns (outcome: Outcome, ghost owner: seq<nat>)
    ensures outcome.Matched? ==> |outcome.objects| == |subjects|
    ensures outcome.Matched? && subjects != [] ==> Distributed(objects, |objects|, owner, outcome.objects)
    ensures outcome.Matched? && subjects != [] ==>
      OwnersAttached(subjects, Indices(objects), objects, kind, metric, owner)
    ensures outcome.TooManyNearest? <==> SomeCrowded(subjects, Indices(objects), objects, |objects|)
    ensures WellIndexed(subjects, Indices(objects)) ==> outcome.Matched?
  {
    owner := [];
    var lists: seq<seq<Block>> := seq(|subjects|, _ => []);
    var indices := Indices(objects);
    for n := 0 to |objects|
      invariant |lists| == |subjects|
      invariant subjects != [] ==> Distributed(objects, n, owner, lists)
      invariant subjects != [] ==> OwnersAttached(subjects, indices, objects, kind, metric, owner)
      invariant !SomeCrowded(subjects, indices, objects, n)
    {
      SomeCrowdedStep(subjects, indices, objects, n);
      if |subjects| == 0 { continue; }
      assert objects[n] in objects;
      var ok, i := AttachObject(subjects, indices, objects[n], kind, metric);
      if !ok {
        return TooManyNearest, owner;
      }
      DistributedStep(objects, n, owner, lists, i);
      OwnersStep(subjects, indices, objects, kind, metric, owner, i);
      lists := lists[i := lists[i] + [objects[n]]];
      owner := owner + [i];
    }
    outcome := Matched(lists);
  }

  /** Three subjects with the index of one another are all nearest: the error is raised. */
  lemma EqualSubjectsTie(index: int, obj: int, indices: set<int>)
    ensures var s := Block(index, 0); Crowded([s, s, s], indices, obj)
  {
    var s := Block(index, 0);
    assert AllNearest([s, s, s], indices, obj, 0, 1, 2);
  }

  /** So is it for different subjects that share indices with objects: 0, 1 and 2 are equally near to the object at
      3 when objects are at 1, 2 and 3. */
  lemma OverlappingIndicesTie(a: nat, b: nat, c: nat)
    ensures Crowded([Block(0, a), Block(1, b), Block(2, c)], {1, 2, 3}, 3)
  {
    var subjects, indices := [Block(0, a), Block(1, b), Block(2, c)], {1, 2, 3};
    assert CountIn(indices, 3, 3) == 0 && CountIn(indices, 2, 3) == 1 && CountIn(indices, 1, 3) == 2;
    assert EffectiveDiff(indices, 3, 0) == 1 && EffectiveDiff(indices, 3, 1) == 1 && EffectiveDiff(indices, 3, 2) == 1;
    assert AllNearest(subjects, indices, 3, 0, 1, 2);
  }
}
