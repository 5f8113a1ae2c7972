/** Finding and orienting the box-to-box links of the contracted graph (flowchart/flowchart/lines.py). */
module LinkSearch {
  import opened Basics
  import opened Graphs

  datatype Box = Box(x: int, y: int, w: int, h: int)

  datatype Link = Link(src: nat, dst: nat)

  // ----- which vertices touch which box

  /** The rim around a box, clipped at the top and left border of the page. */
  predicate InSearchArea(p: Point, box: Box, proximity: int) {
    var x1 := if box.x - proximity > 0 then box.x - proximity else 0;
    var y1 := if box.y - proximity > 0 then box.y - proximity else 0;
    x1 <= p.x <= box.x + box.w + proximity && y1 <= p.y <= box.y + box.h + proximity
  }

  ghost predicate NearTo(x: int, y: int, proximity: int) {
    -proximity <= x - y <= proximity
  }

  lemma NearInterval(x: int, from: int, len: int, proximity: int)
    requires len >= 0 && proximity >= 0
    ensures from - proximity <= x <= from + len + proximity <==>
      exists y :: from <= y <= from + len && NearTo(x, y, proximity)
  {
    assert from - proximity <= x <= from + len + proximity ==> NearTo(x, Max(from, Min(x, from + len)), proximity);
  }

  /** The rim: the points of the page that are not further from the box than the proximity, in both directions. */
  lemma SearchAreaIsRim(p: Point, box: Box, proximity: int)
    requires box.w >= 0 && box.h >= 0 && proximity >= 0
    ensures InSearchArea(p, box, proximity) <==>
      && p.x >= 0 && p.y >= 0
      && (exists x :: box.x <= x <= box.x + box.w && NearTo(p.x, x, proximity))
      && (exists y :: box.y <= y <= box.y + box.h && NearTo(p.y, y, proximity))
  {
    NearInterval(p.x, box.x, box.w, proximity);
    NearInterval(p.y, box.y, box.h, proximity);
  }

  ghost predicate FirstBox(p: Point, boxes: seq<Box>, proximity: int, i: nat) {
    && i < |boxes| && InSearchArea(p, boxes[i], proximity)
    && forall k | 0 <= k < i :: !InSearchArea(p, boxes[k], proximity)
  }

  /** Maps each vertex near some box to the first such box, and no other vertex. */
  method MapGraphNodesToBoxes(vertices: seq<Point>, boxes: seq<Box>, proximity: int) returns (mapping: map<Point, nat>)
    ensures forall p | p in mapping :: p in vertices && FirstBox(p, boxes, proximity, mapping[p])
    ensures forall p, i: nat | p in vertices && FirstBox(p, boxes, proximity, i) :: p in mapping
  {
    mapping := map[];
    for n := 0 to |vertices|
      invariant forall p | p in mapping :: p in vertices[..n] && FirstBox(p, boxes, proximity, mapping[p])
      invariant forall p, i: nat | p in vertices[..n] && FirstBox(p, boxes, proximity, i) :: p in mapping
    {
      var pt := vertices[n];
      for i := 0 to |boxes|
        invariant forall p | p in mapping :: p in vertices[..n + 1] && FirstBox(p, boxes, proximity, mapping[p])
        invariant forall p, j: nat | p in vertices[..n] && FirstBox(p, boxes, proximity, j) :: p in mapping
        invariant forall k | 0 <= k < i :: !InSearchArea(pt, boxes[k], proximity)
      {
        if InSearchArea(pt, boxes[i], proximity) {
          mapping := mapping[pt := i];
          break;
        }
      }
    }
  }

  // ----- what counts as a link

  /** A walk whose inner vertices touch no box. */
  ghost predicate OpenWalk(g: Adjacency, touching: set<Point>, a: Point, b: Point, p: seq<Point>) {
    && |p| >= 2 && IsWalk(g, p) && p[0] == a && p[|p| - 1] == b
    && forall k | 0 < k < |p| - 1 :: p[k] !in touching
  }

  ghost predicate OpenlyReaches(g: Adjacency, touching: set<Point>, a: Point, b: Point) {
    exists p :: OpenWalk(g, touching, a, b, p)
  }

  /** a and b touch different boxes and some walk joins them without touching a box on its way. */
  ghost predicate Linked(g: Adjacency, boxOf: map<Point, nat>, a: Point, b: Point) {
    && a in boxOf && b in boxOf && boxOf[a] != boxOf[b]
    && OpenlyReaches(g, boxOf.Keys, a, b)
  }

  lemma {:induction false} WalkSteps(g: Adjacency, p: seq<Point>)
    requires Simple(g)
    ensures IsWalk(g, p) <==>
      p != [] && p[0] in g && forall k | 0 <= k < |p| - 1 :: p[k] in g && p[k + 1] in g[p[k]]
  {
    if |p| > 1 && p[0] in g && p[1] in g[p[0]] {
      WalkSteps(g, p[1..]);
      if IsWalk(g, p[1..]) {
        forall k | 0 <= k < |p| - 1
          ensures p[k] in g && p[k + 1] in g[p[k]]
        {
          if k > 0 {
            assert p[1..][k - 1] == p[k] && p[1..][k] == p[k + 1];
          }
        }
      }
      if forall k | 0 <= k < |p| - 1 :: p[k] in g && p[k + 1] in g[p[k]] {
        forall k | 0 <= k < |p[1..]| - 1
          ensures p[1..][k] in g && p[1..][k + 1] in g[p[1..][k]]
        {
          assert p[1..][k] == p[k + 1] && p[1..][k + 1] == p[k + 1 + 1];
        }
      }
    }
  }

  lemma LinkedIsSymmetric(g: Adjacency, boxOf: map<Point, nat>, a: Point, b: Point)
    requires Simple(g) && Linked(g, boxOf, a, b)
    ensures Linked(g, boxOf, b, a)
  {
    var p :| OpenWalk(g, boxOf.Keys, a, b, p);
    var n := |p|;
    var q := seq(n, k requires 0 <= k < n => p[n - 1 - k]);
    WalkSteps(g, p);
    forall k | 0 <= k < |q| - 1
      ensures q[k] in g && q[k + 1] in g[q[k]]
    {
      var m := n - 2 - k;
      assert p[m] in g && p[m + 1] in g[p[m]];
      assert q[k] == p[m + 1] && q[k + 1] == p[m];
    }
    assert q[0] == p[n - 1];
    assert q[0] in g;
    WalkSteps(g, q);
    assert OpenWalk(g, boxOf.Keys, b, a, q);
  }

  // ----- orientation

  /** Twice the centre of a box, so that halves need no fractions. */
  function DoubledCenter(box: Box): (int, int) {
    (2 * box.x + box.w, 2 * box.y + box.h)
  }

  /** The link recorded for a line from a (at box s) to b (at box d). */
  function Orient(arrow: Point -> bool, boxes: seq<Box>, a: Point, b: Point, s: nat, d: nat): Link
    requires s < |boxes| && d < |boxes|
  {
    if arrow(b) && !arrow(a) then Link(s, d)
    else if arrow(a) && !arrow(b) then Link(d, s)
    else
      var src, dst := DoubledCenter(boxes[s]), DoubledCenter(boxes[d]);
      if Abs(src.1 - dst.1) > Abs(src.0 - dst.0) then
        if src.1 < dst.1 then Link(s, d) else Link(d, s)
      else
        if src.0 < dst.0 then Link(s, d) else Link(d, s)
  }

  /** From p to q it goes down if the centres differ more in height than across, and else not to the left. */
  ghost predicate FlowsOn(p: Box, q: Box) {
    var across := (2 * q.x + q.w) - (2 * p.x + p.w);
    var down := (2 * q.y + q.h) - (2 * p.y + p.h);
    if Abs(down) > Abs(across) then down > 0 else across >= 0
  }

  /** A link for a line from a (at box s) to b (at box d): it ends at the only arrowhead, and without one, or with
      two, it flows on. */
  ghost predicate Directed(arrow: Point -> bool, boxes: seq<Box>, a: Point, b: Point, s: nat, d: nat, link: Link)
    requires s < |boxes| && d < |boxes|
  {
    && (link == Link(s, d) || link == Link(d, s))
    && (arrow(a) && !arrow(b) ==> link.dst == s)
    && (arrow(b) && !arrow(a) ==> link.dst == d)
    && (arrow(a) == arrow(b) ==> FlowsOn(boxes[link.src], boxes[link.dst]))
  }

  lemma OrientIsDirected(arrow: Point -> bool, boxes: seq<Box>, a: Point, b: Point, s: nat, d: nat)
    requires s < |boxes| && d < |boxes|
    ensures Directed(arrow, boxes, a, b, s, d, Orient(arrow, boxes, a, b, s, d))
    ensures Directed(arrow, boxes, a, b, s, d, Orient(arrow, boxes, b, a, d, s))
  {
  }

  /** The arrowheads or the box centres tell the two ends apart. */
  predicate Decided(arrow: Point -> bool, boxes: seq<Box>, a: Point, b: Point, s: nat, d: nat)
    requires s < |boxes| && d < |boxes|
  {
    arrow(a) != arrow(b) || DoubledCenter(boxes[s]) != DoubledCenter(boxes[d])
  }

  /** The end explored first matters exactly when the arrowheads agree and the centres coincide. */
  lemma OrientationIgnoresStart(arrow: Point -> bool, boxes: seq<Box>, a: Point, b: Point, s: nat, d: nat)
    requires s < |boxes| && d < |boxes| && s != d
    ensures Orient(arrow, boxes, a, b, s, d) == Orient(arrow, boxes, b, a, d, s) <==> Decided(arrow, boxes, a, b, s, d)
    ensures Orient(arrow, boxes, a, b, s, d) in {Link(s, d), Link(d, s)}
  {
  }

  // ----- the search

  predicate Precedes(a: Point, b: Point) {
    a.x < b.x || (a.x == b.x && a.y <= b.y)
  }

  /** The two points in increasing order. */
  function PairId(a: Point, b: Point): (Point, Point) {
    if Precedes(a, b) then (a, b) else (b, a)
  }

  ghost predicate BoxesExist(boxOf: map<Point, nat>, boxes: seq<Box>) {
    forall p | p in boxOf :: boxOf[p] < |boxes|
  }

  /** found[i] is the pair of vertices, in order of exploration, behind edges[i]; no unordered pair occurs twice. */
  ghost predicate Recorded(g: Adjacency, boxOf: map<Point, nat>, boxes: seq<Box>, arrow: Point -> bool,
                           processed: set<(Point, Point)>, edges: seq<Link>, found: seq<(Point, Point)>)
    requires BoxesExist(boxOf, boxes)
  {
    && |found| == |edges| && IdsOf(processed, found)
    && (forall i | 0 <= i < |found| ::
          && Linked(g, boxOf, found[i].0, found[i].1)
          && edges[i] == Orient(arrow, boxes, found[i].0, found[i].1, boxOf[found[i].0], boxOf[found[i].1]))
  }

  /** The recorded pairs are all linked pairs. */
  ghost predicate Complete(g: Adjacency, boxOf: map<Point, nat>, processed: set<(Point, Point)>) {
    forall a, b | a in boxOf && b in boxOf :: PairId(a, b) in processed <==> Linked(g, boxOf, a, b)
  }

  /** What the search from `start` has reached so far: everything but the stack is fully explored. */
  ghost predicate Frontier(g: Adjacency, touching: set<Point>, start: Point, visited: set<Point>, stack: seq<Point>) {
    && start in visited && visited <= g.Keys
    && (forall v | v in stack :: v in visited && (v == start || v !in touching))
    && (forall v | v in visited && v != start :: OpenlyReaches(g, touching, start, v))
    && (forall v, n | v in visited && (v == start || v !in touching) && v !in stack && n in g[v] :: n in visited)
  }

  /** The pairs that start makes with visited vertices of other boxes. */
  ghost predicate PairsFrom(boxOf: map<Point, nat>, start: Point, visited: set<Point>,
                            before: set<(Point, Point)>, processed: set<(Point, Point)>)
    requires start in boxOf
  {
    forall id :: id in processed <==>
      || id in before
      || exists n :: n in visited && n in boxOf && boxOf[n] != boxOf[start] && id == PairId(start, n)
  }

  lemma ExtendOpenWalk(g: Adjacency, touching: set<Point>, start: Point, curr: Point, n: Point)
    requires Simple(g) && start in g && curr in g && n in g[curr]
    requires curr == start || (curr !in touching && OpenlyReaches(g, touching, start, curr))
    ensures OpenlyReaches(g, touching, start, n)
  {
    if curr == start {
      assert IsWalk(g, [start, n][1..]);
      assert OpenWalk(g, touching, start, n, [start, n]);
    } else {
      var p :| OpenWalk(g, touching, start, curr, p);
      var q := p + [n];
      WalkSteps(g, p);
      forall k | 0 <= k < |q| - 1
        ensures q[k] in g && q[k + 1] in g[q[k]]
      {
        if k == |p| - 1 {
          assert q[k] == curr;
        }
      }
      WalkSteps(g, q);
      assert OpenWalk(g, touching, start, n, q);
    }
  }

  lemma {:induction false} FrontierIsComplete(g: Adjacency, touching: set<Point>, start: Point, visited: set<Point>,
                                              p: seq<Point>, k: nat)
    requires Simple(g) && Frontier(g, touching, start, visited, [])
    requires k < |p| && OpenWalk(g, touching, start, p[|p| - 1], p)
    ensures p[k] in visited
  {
    if k == 0 {
    } else {
      FrontierIsComplete(g, touching, start, visited, p, k - 1);
      WalkSteps(g, p);
      assert p[k - 1 + 1] in g[p[k - 1]];
    }
  }

  /** An exhausted search has visited, besides its start, exactly what can be reached openly. */
  lemma SearchIsExact(g: Adjacency, boxOf: map<Point, nat>, start: Point, visited: set<Point>, n: Point)
    requires Simple(g) && start in boxOf && Frontier(g, boxOf.Keys, start, visited, [])
    ensures n in visited && n in boxOf && boxOf[n] != boxOf[start] <==> Linked(g, boxOf, start, n)
  {
    if Linked(g, boxOf, start, n) {
      var p :| OpenWalk(g, boxOf.Keys, start, n, p);
      FrontierIsComplete(g, boxOf.Keys, start, visited, p, |p| - 1);
    }
  }

  lemma RecordedStep(g: Adjacency, boxOf: map<Point, nat>, boxes: seq<Box>, arrow: Point -> bool,
                     processed: set<(Point, Point)>, edges: seq<Link>, found: seq<(Point, Point)>, a: Point, b: Point)
    requires BoxesExist(boxOf, boxes) && Recorded(g, boxOf, boxes, arrow, processed, edges, found)
    requires Linked(g, boxOf, a, b) && PairId(a, b) !in processed
    ensures Recorded(g, boxOf, boxes, arrow, processed + {PairId(a, b)},
                     edges + [Orient(arrow, boxes, a, b, boxOf[a], boxOf[b])], found + [(a, b)])
  {
    var found' := found + [(a, b)];
    IdsStep(processed, found, a, b);
    forall i | 0 <= i < |found'|
      ensures Linked(g, boxOf, found'[i].0, found'[i].1)
    {
      assert found'[i] == if i < |found| then found[i] else (a, b);
    }
  }

  /** The pairs of `found` have different unordered pairs, and these are all of `processed`. */
  ghost predicate IdsOf(processed: set<(Point, Point)>, found: seq<(Point, Point)>) {
    && (forall i | 0 <= i < |found| :: PairId(found[i].0, found[i].1) in processed)
    && (forall i, k | 0 <= i < k < |found| :: PairId(found[i].0, found[i].1) != PairId(found[k].0, found[k].1))
    && (forall id | id in processed :: exists i :: 0 <= i < |found| && PairId(found[i].0, found[i].1) == id)
  }

  lemma IdsStep(processed: set<(Point, Point)>, found: seq<(Point, Point)>, a: Point, b: Point)
    requires IdsOf(processed, found) && PairId(a, b) !in processed
    ensures IdsOf(processed + {PairId(a, b)}, found + [(a, b)])
  {
    var found' := found + [(a, b)];
    assert found'[|found|] == (a, b);
    forall id | id in processed + {PairId(a, b)}
      ensures exists i :: 0 <= i < |found'| && PairId(found'[i].0, found'[i].1) == id
    {
      if id in processed {
        var i :| 0 <= i < |found| && PairId(found[i].0, found[i].1) == id;
        assert found'[i] == found[i];
      }
    }
  }

  /** The state of the search: the links so far and the unordered pairs they came from. */
  class LinkFinder {
    const g: Adjacency
    const boxOf: map<Point, nat>
    const boxes: seq<Box>
    const arrow: Point -> bool
    var detectedEdges: seq<Link>
    var processedPairs: set<(Point, Point)>
    ghost var found: seq<(Point, Point)>

    constructor (g: Adjacency, boxOf: map<Point, nat>, boxes: seq<Box>, arrow: Point -> bool)
      requires Simple(g) && boxOf.Keys <= g.Keys && BoxesExist(boxOf, boxes)
      ensures this.g == g && this.boxOf == boxOf && this.boxes == boxes && this.arrow == arrow
      ensures Valid() && processedPairs == {}
    {
      this.g, this.boxOf, this.boxes, this.arrow := g, boxOf, boxes, arrow;
      detectedEdges, processedPairs, found := [], {}, [];
    }

    ghost predicate Valid()
      reads this
    {
      && Simple(g) && boxOf.Keys <= g.Keys && BoxesExist(boxOf, boxes)
      && Recorded(g, boxOf, boxes, arrow, processedPairs, detectedEdges, found)
    }

    /** Adds the link between two linked vertices, unless their pair was recorded before. */
    method RecordPair(start: Point, neighbor: Point)
      requires Valid() && start in boxOf && neighbor in boxOf
      requires boxOf[start] != boxOf[neighbor] ==> Linked(g, boxOf, start, neighbor)
      modifies this
      ensures Valid()
      ensures processedPairs ==
        old(processedPairs) + (if boxOf[start] != boxOf[neighbor] then {PairId(start, neighbor)} else {})
      ensures detectedEdges == old(detectedEdges) +
        if boxOf[start] != boxOf[neighbor] && PairId(start, neighbor) !in old(processedPairs)
        then [Orient(arrow, boxes, start, neighbor, boxOf[start], boxOf[neighbor])] else []
    {
      var src, dst := boxOf[start], boxOf[neighbor];
      var pairId := PairId(start, neighbor);
      if src != dst && pairId !in processedPairs {
        RecordedStep(g, boxOf, boxes, arrow, processedPairs, detectedEdges, found, start, neighbor);
        processedPairs := processedPairs + {pairId};
        detectedEdges := detectedEdges + [Orient(arrow, boxes, start, neighbor, src, dst)];
        found := found + [(start, neighbor)];
      }
    }

    /** Visits one neighbour that has not been visited: records it if it touches a box, else puts it on the stack. */
    method VisitNeighbor(start: Point, curr: Point, neighbor: Point, visited0: set<Point>, stack0: seq<Point>,
                         ghost before: set<(Point, Point)>)
      returns (visited: set<Point>, stack: seq<Point>)
      requires Valid() && start in boxOf && curr in g && neighbor in g[curr] && neighbor !in visited0
      requires Frontier(g, boxOf.Keys, start, visited0, stack0 + [curr])
      requires PairsFrom(boxOf, start, visited0, before, processedPairs)
      modifies this
      ensures Valid()
      ensures Frontier(g, boxOf.Keys, start, visited, stack + [curr])
      ensures PairsFrom(boxOf, start, visited, before, processedPairs)
      ensures visited == visited0 + {neighbor}
    {
      stack := stack0;
      ExpandsFrontier(g, boxOf.Keys, start, visited0, stack0, curr, neighbor);
      PairsGrow(boxOf, start, visited0, before, processedPairs, neighbor);
      FrontierGrows(g, boxOf.Keys, start, visited0, stack0, curr, neighbor);
      if neighbor in boxOf {
        RecordPair(start, neighbor);
      } else {
        stack := stack + [neighbor];
      }
      visited := visited0 + {neighbor};
    }

    /** Visits the unvisited neighbours of one vertex; those touching no box wait on the stack. */
    method VisitNeighbors(start: Point, curr: Point, visited0: set<Point>, stack0: seq<Point>,
                          ghost before: set<(Point, Point)>)
      returns (visited: set<Point>, stack: seq<Point>)
      requires Valid() && start in boxOf
      requires Frontier(g, boxOf.Keys, start, visited0, stack0 + [curr])
      requires PairsFrom(boxOf, start, visited0, before, processedPairs)
      modifies this
      ensures Valid()
      ensures Frontier(g, boxOf.Keys, start, visited, stack)
      ensures PairsFrom(boxOf, start, visited, before, processedPairs)
      ensures (visited == visited0 && stack == stack0) || visited0 < visited
    {
      visited, stack := visited0, stack0;
      FrontierTop(g, boxOf.Keys, start, visited, stack, curr);
      var neighbors := Listed(g[curr].Keys);
      for k := 0 to |neighbors|
        invariant Valid()
        invariant Frontier(g, boxOf.Keys, start, visited, stack + [curr])
        invariant FirstIn(neighbors, k, visited)
        invariant PairsFrom(boxOf, start, visited, before, processedPairs)
        invariant (visited == visited0 && stack == stack0) || visited0 < visited
      {
        var neighbor := neighbors[k];
        assert neighbor in g[curr].Keys by { assert neighbor in neighbors; }
        if neighbor in visited {
          FirstInStep(neighbors, k, visited, visited);
        } else {
          FirstInStep(neighbors, k, visited, visited + {neighbor});
          visited, stack := VisitNeighbor(start, curr, neighbor, visited, stack, before);
        }
      }
      FrontierCloses(g, boxOf.Keys, start, visited, stack, curr);
    }

    /** Depth-first search from one box-touching vertex, stopping each branch at the next one. */
    method ExploreFrom(start: Point)
      requires Valid() && start in boxOf
      modifies this
      ensures Valid()
      ensures forall id :: id in processedPairs <==>
        id in old(processedPairs) || exists n :: Linked(g, boxOf, start, n) && id == PairId(start, n)
    {
      var visited := {start};
      var stack := [start];
      while stack != []
        invariant Valid()
        invariant Frontier(g, boxOf.Keys, start, visited, stack)
        invariant PairsFrom(boxOf, start, visited, old(processedPairs), processedPairs)
        decreases |g.Keys - visited|, |stack|
      {
        var curr := stack[|stack| - 1];
        ghost var visitedBefore := visited;
        LastSplit(stack);
        visited, stack := VisitNeighbors(start, curr, visited, stack[..|stack| - 1], old(processedPairs));
        if visitedBefore < visited {
          Shrinks(visitedBefore, visited, g.Keys);
        }
      }
      ExploredPairs(g, boxOf, start, visited, old(processedPairs), processedPairs);
    }

    /** Explores every box-touching vertex, in the given order. */
    method DetectLinks(order: seq<Point>)
      requires Valid() && processedPairs == {}
      requires forall p :: p in order <==> p in boxOf
      modifies this
      ensures Valid()
      ensures Complete(g, boxOf, processedPairs)
    {
      for i := 0 to |order|
        invariant Valid()
        invariant forall id :: id in processedPairs <==>
          exists a, b :: a in order[..i] && Linked(g, boxOf, a, b) && id == PairId(a, b)
      {
        ExploreFrom(order[i]);
        assert order[..i + 1] == order[..i] + [order[i]];
      }
      assert order[..|order|] == order;
      forall a, b | a in boxOf && b in boxOf
        ensures PairId(a, b) in processedPairs <==> Linked(g, boxOf, a, b)
      {
        if PairId(a, b) in processedPairs {
          var a', b' :| a' in order && Linked(g, boxOf, a', b') && PairId(a, b) == PairId(a', b');
          LinkedIsSymmetric(g, boxOf, a', b');
          assert (a == a' && b == b') || (a == b' && b == a');
        }
      }
    }
  }

  lemma FrontierTop(g: Adjacency, touching: set<Point>, start: Point, visited: set<Point>, stack: seq<Point>,
                    curr: Point)
    requires Frontier(g, touching, start, visited, stack + [curr])
    ensures curr in g && start in g
    ensures curr == start || (curr !in touching && OpenlyReaches(g, touching, start, curr))
  {
    assert curr in stack + [curr];
  }

  /** The first k points of the list are in the set. */
  ghost predicate FirstIn(list: seq<Point>, k: nat, all: set<Point>) {
    k <= |list| && forall m | 0 <= m < k :: list[m] in all
  }

  lemma FirstInStep(list: seq<Point>, k: nat, before: set<Point>, all: set<Point>)
    requires k < |list| && FirstIn(list, k, before) && before <= all && list[k] in all
    ensures FirstIn(list, k + 1, all)
  {
  }

  lemma ExpandsFrontier(g: Adjacency, touching: set<Point>, start: Point, visited: set<Point>, stack: seq<Point>,
                        curr: Point, n: Point)
    requires Simple(g) && curr in g && n in g[curr]
    requires Frontier(g, touching, start, visited, stack + [curr])
    ensures n in g && OpenlyReaches(g, touching, start, n)
  {
    FrontierTop(g, touching, start, visited, stack, curr);
    ExtendOpenWalk(g, touching, start, curr, n);
  }

  lemma PairsGrow(boxOf: map<Point, nat>, start: Point, visited: set<Point>, before: set<(Point, Point)>,
                  processed: set<(Point, Point)>, n: Point)
    requires start in boxOf && PairsFrom(boxOf, start, visited, before, processed)
    ensures PairsFrom(boxOf, start, visited + {n}, before,
      processed + (if n in boxOf && boxOf[n] != boxOf[start] then {PairId(start, n)} else {}))
  {
  }

  lemma FrontierGrows(g: Adjacency, touching: set<Point>, start: Point, visited: set<Point>, stack: seq<Point>,
                      curr: Point, n: Point)
    requires Frontier(g, touching, start, visited, stack + [curr])
    requires n in g && n !in visited && OpenlyReaches(g, touching, start, n)
    ensures Frontier(g, touching, start, visited + {n}, (if n in touching then stack else stack + [n]) + [curr])
  {
    var rest := (if n in touching then stack else stack + [n]) + [curr];
    forall v
      ensures v in rest <==> v in stack + [curr] || (v == n && n !in touching)
    {
    }
  }

  lemma FrontierCloses(g: Adjacency, touching: set<Point>, start: Point, visited: set<Point>, stack: seq<Point>,
                       curr: Point)
    requires curr in g && Frontier(g, touching, start, visited, stack + [curr])
    requires forall n | n in g[curr] :: n in visited
    ensures Frontier(g, touching, start, visited, stack)
  {
    forall v
      ensures v in stack + [curr] <==> v in stack || v == curr
    {
    }
  }

  lemma ExploredPairs(g: Adjacency, boxOf: map<Point, nat>, start: Point, visited: set<Point>,
                      before: set<(Point, Point)>, processed: set<(Point, Point)>)
    requires Simple(g) && boxOf.Keys <= g.Keys && start in boxOf
    requires Frontier(g, boxOf.Keys, start, visited, []) && PairsFrom(boxOf, start, visited, before, processed)
    ensures forall id :: id in processed <==>
      id in before || exists n :: Linked(g, boxOf, start, n) && id == PairId(start, n)
  {
    forall n
      ensures n in visited && n in boxOf && boxOf[n] != boxOf[start] <==> Linked(g, boxOf, start, n)
    {
      SearchIsExact(g, boxOf, start, visited, n);
    }
  }

  lemma Shrinks<T>(a: set<T>, b: set<T>, all: set<T>)
    requires a < b <= all
    ensures |all - b| < |all - a|
  {
    var x :| x in b && x !in a;
    assert x in all - a && x !in all - b;
    ProperSubsetSize(all - b, all - a);
  }

  // ----- what a finished search says

  /** Every linked unordered pair of vertices has exactly one link. It joins two different boxes, the way that the
      arrowheads tell, or else the centres of the boxes. */
  lemma OneLinkPerPair(g: Adjacency, boxOf: map<Point, nat>, boxes: seq<Box>, arrow: Point -> bool,
                       processed: set<(Point, Point)>, edges: seq<Link>, found: seq<(Point, Point)>, a: Point, b: Point)
    returns (i: nat)
    requires Simple(g) && BoxesExist(boxOf, boxes)
    requires Recorded(g, boxOf, boxes, arrow, processed, edges, found) && Complete(g, boxOf, processed)
    requires Linked(g, boxOf, a, b)
    ensures i < |edges| && |found| == |edges| && found[i] in {(a, b), (b, a)}
    ensures forall k | 0 <= k < |edges| && found[k] in {(a, b), (b, a)} :: k == i
    ensures Directed(arrow, boxes, a, b, boxOf[a], boxOf[b], edges[i]) && edges[i].src != edges[i].dst
    ensures Decided(arrow, boxes, a, b, boxOf[a], boxOf[b]) ==>
      edges[i] == Orient(arrow, boxes, a, b, boxOf[a], boxOf[b])
  {
    assert PairId(a, b) in processed;
    i :| 0 <= i < |found| && PairId(found[i].0, found[i].1) == PairId(a, b);
    SamePair(found[i].0, found[i].1, a, b);
    FoundOnce(processed, found, a, b, i);
    OrientIsDirected(arrow, boxes, a, b, boxOf[a], boxOf[b]);
    OrientationIgnoresStart(arrow, boxes, a, b, boxOf[a], boxOf[b]);
    OrientationIgnoresStart(arrow, boxes, b, a, boxOf[b], boxOf[a]);
  }

  lemma SamePair(a: Point, b: Point, c: Point, d: Point)
    ensures PairId(a, b) == PairId(c, d) <==> (a, b) in {(c, d), (d, c)}
  {
  }

  lemma FoundOnce(processed: set<(Point, Point)>, found: seq<(Point, Point)>, a: Point, b: Point, i: nat)
    requires IdsOf(processed, found) && i < |found| && found[i] in {(a, b), (b, a)}
    ensures forall k | 0 <= k < |found| && found[k] in {(a, b), (b, a)} :: k == i
  {
    forall k | 0 <= k < |found| && found[k] in {(a, b), (b, a)}
      ensures k == i
    {
      SamePair(found[k].0, found[k].1, a, b);
      SamePair(found[i].0, found[i].1, a, b);
    }
  }

  function Ids(found: seq<(Point, Point)>): seq<(Point, Point)> {
    seq(|found|, i requires 0 <= i < |found| => PairId(found[i].0, found[i].1))
  }

  function LinkOfId(arrow: Point -> bool, boxes: seq<Box>, boxOf: map<Point, nat>, id: (Point, Point)): Link {
    if id.0 in boxOf && id.1 in boxOf && boxOf[id.0] < |boxes| && boxOf[id.1] < |boxes|
    then Orient(arrow, boxes, id.0, id.1, boxOf[id.0], boxOf[id.1])
    else Link(0, 0)
  }

  function Map<A, B>(f: A -> B, s: seq<A>): seq<B> {
    seq(|s|, i requires 0 <= i < |s| => f(s[i]))
  }

  lemma {:induction false} MapRespectsMultisets<A, B>(f: A -> B, s: seq<A>, t: seq<A>)
    requires multiset(s) == multiset(t)
    ensures multiset(Map(f, s)) == multiset(Map(f, t))
  {
    if s == [] {
      assert |t| == |multiset(t)| == 0;
    } else {
      assert s[0] in multiset(t);
      var k :| 0 <= k < |t| && t[k] == s[0];
      RemoveOne(t, k);
      RemoveOne(s, 0);
      MapRemoveOne(f, t, k);
      MapRemoveOne(f, s, 0);
      MapRespectsMultisets(f, Remove(s, 0), Remove(t, k));
    }
  }

  lemma RemoveOne<T>(t: seq<T>, k: nat)
    requires k < |t|
    ensures multiset(t) == multiset(Remove(t, k)) + multiset{t[k]}
  {
    assert t == t[..k] + [t[k]] + t[k + 1..];
  }

  lemma MapRemoveOne<A, B>(f: A -> B, t: seq<A>, k: nat)
    requires k < |t|
    ensures multiset(Remove(t, k)) == multiset(t) - multiset{t[k]}
    ensures multiset(Map(f, t)) == multiset(Map(f, Remove(t, k))) + multiset{f(t[k])}
  {
    RemoveOne(t, k);
    RemoveOne(Map(f, t), k);
    assert Remove(Map(f, t), k) == Map(f, Remove(t, k));
  }

  lemma {:induction false} CountInDistinct<T>(s: seq<T>, x: T)
    requires forall i, k | 0 <= i < k < |s| :: s[i] != s[k]
    ensures multiset(s)[x] == if x in s then 1 else 0
  {
    if s == [] {
    } else {
      CountInDistinct(s[1..], x);
      assert s == [s[0]] + s[1..];
    }
  }

  /** When every linked pair is decided, the detected links do not depend on the order of exploration. */
  lemma LinksIgnoreOrder(g: Adjacency, boxOf: map<Point, nat>, boxes: seq<Box>, arrow: Point -> bool,
                         p1: set<(Point, Point)>, e1: seq<Link>, f1: seq<(Point, Point)>,
                         p2: set<(Point, Point)>, e2: seq<Link>, f2: seq<(Point, Point)>)
    requires Simple(g) && BoxesExist(boxOf, boxes)
    requires Recorded(g, boxOf, boxes, arrow, p1, e1, f1) && Complete(g, boxOf, p1)
    requires Recorded(g, boxOf, boxes, arrow, p2, e2, f2) && Complete(g, boxOf, p2)
    requires forall a, b | Linked(g, boxOf, a, b) :: Decided(arrow, boxes, a, b, boxOf[a], boxOf[b])
    ensures multiset(e1) == multiset(e2)
  {
    var f := id => LinkOfId(arrow, boxes, boxOf, id);
    LinksFromIds(g, boxOf, boxes, arrow, p1, e1, f1);
    LinksFromIds(g, boxOf, boxes, arrow, p2, e2, f2);
    forall id
      ensures multiset(Ids(f1))[id] == multiset(Ids(f2))[id]
    {
      assert id in Ids(f1) <==> id in Ids(f2) by {
        SameIds(g, boxOf, boxes, arrow, p1, e1, f1, p2, e2, f2, id);
        SameIds(g, boxOf, boxes, arrow, p2, e2, f2, p1, e1, f1, id);
      }
      CountInDistinct(Ids(f1), id);
      CountInDistinct(Ids(f2), id);
    }
    assert multiset(Ids(f1)) == multiset(Ids(f2));
    MapRespectsMultisets(f, Ids(f1), Ids(f2));
  }

  lemma LinksFromIds(g: Adjacency, boxOf: map<Point, nat>, boxes: seq<Box>, arrow: Point -> bool,
                     p: set<(Point, Point)>, e: seq<Link>, f: seq<(Point, Point)>)
    requires BoxesExist(boxOf, boxes) && Recorded(g, boxOf, boxes, arrow, p, e, f)
    requires forall a, b | Linked(g, boxOf, a, b) :: Decided(arrow, boxes, a, b, boxOf[a], boxOf[b])
    ensures e == Map(id => LinkOfId(arrow, boxes, boxOf, id), Ids(f))
  {
    forall i | 0 <= i < |e|
      ensures e[i] == LinkOfId(arrow, boxes, boxOf, Ids(f)[i])
    {
      var (a, b) := f[i];
      assert Linked(g, boxOf, f[i].0, f[i].1);
      OrientationIgnoresStart(arrow, boxes, a, b, boxOf[a], boxOf[b]);
    }
  }

  lemma SameIds(g: Adjacency, boxOf: map<Point, nat>, boxes: seq<Box>, arrow: Point -> bool,
                p1: set<(Point, Point)>, e1: seq<Link>, f1: seq<(Point, Point)>,
                p2: set<(Point, Point)>, e2: seq<Link>, f2: seq<(Point, Point)>, id: (Point, Point))
    requires BoxesExist(boxOf, boxes)
    requires Recorded(g, boxOf, boxes, arrow, p1, e1, f1)
    requires Recorded(g, boxOf, boxes, arrow, p2, e2, f2) && Complete(g, boxOf, p2)
    ensures id in Ids(f1) ==> id in Ids(f2)
  {
    if id in Ids(f1) {
      var a, b := IdIsLinked(g, boxOf, boxes, arrow, p1, e1, f1, id);
      assert id in p2;
      var k :| 0 <= k < |f2| && PairId(f2[k].0, f2[k].1) == id;
      assert Ids(f2)[k] == id;
    }
  }

  lemma IdIsLinked(g: Adjacency, boxOf: map<Point, nat>, boxes: seq<Box>, arrow: Point -> bool,
                   p: set<(Point, Point)>, e: seq<Link>, f: seq<(Point, Point)>, id: (Point, Point))
    returns (a: Point, b: Point)
    requires BoxesExist(boxOf, boxes) && Recorded(g, boxOf, boxes, arrow, p, e, f) && id in Ids(f)
    ensures Linked(g, boxOf, a, b) && PairId(a, b) == id
  {
    var i :| 0 <= i < |Ids(f)| && Ids(f)[i] == id;
    a, b := f[i].0, f[i].1;
  }
}
