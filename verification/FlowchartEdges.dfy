/** From skeleton pixels to box-to-box links (flowchart/flowchart/lines.py). */
module FlowchartEdges {
  import opened Basics
  import opened Graphs
  import opened Skeleton
  import opened Contraction
  import opened Simplification
  import opened LinkSearch

  lemma LinkedIsConnected(g: Adjacency, boxOf: map<Point, nat>, a: Point, b: Point)
    requires Linked(g, boxOf, a, b)
    ensures a in g && b in boxOf && Connected(g, a, b)
  {
    var p :| OpenWalk(g, boxOf.Keys, a, b, p);
    assert WalkBetween(g, a, b, WalkWeight(g, p), p);
    assert Within(g, a, b, WalkWeight(g, p));
  }

  /** A link found in the contracted graph joins pixels that the skeleton itself connects, over the same distance. */
  lemma LinkIsInSkeleton(g: Adjacency, run: Run, boxOf: map<Point, nat>, a: Point, b: Point)
    requires Simple(g) && ValidRun(g, run) && boxOf.Keys <= After(g, run).Keys
    requires Linked(After(g, run), boxOf, a, b)
    ensures a in g && b in g && Connected(g, a, b)
    ensures forall d: nat :: IsDistance(g, a, b, d) <==> IsDistance(After(g, run), a, b, d)
  {
    LinkedIsConnected(After(g, run), boxOf, a, b);
    RunKeepsDistances(g, run);
    RunKeepsShortestPaths(g, run, a, b);
  }

  /** Each link joins two different boxes whose rims are connected by touching skeleton pixels, and points the way
      of its arrowhead or else of the flow. */
  ghost predicate LinksAreDrawn(skeleton: Adjacency, boxes: seq<Box>, proximity: int, arrow: Point -> bool,
                                edges: seq<Link>, found: seq<(Point, Point)>) {
    && |found| == |edges|
    && forall i | 0 <= i < |edges| :: Drawn(skeleton, boxes, proximity, arrow, edges[i], found[i])
  }

  ghost predicate Drawn(skeleton: Adjacency, boxes: seq<Box>, proximity: int, arrow: Point -> bool, link: Link,
                        ends: (Point, Point)) {
    && ends.0 in skeleton && ends.1 in skeleton && Connected(skeleton, ends.0, ends.1)
    && link.src != link.dst && JoinsRims(boxes, proximity, arrow, link, ends.0, ends.1)
  }

  /** The two pixels lie in the search areas of the two boxes of the link, each in the first box that claims it. */
  ghost predicate JoinsRims(boxes: seq<Box>, proximity: int, arrow: Point -> bool, link: Link, a: Point, b: Point) {
    exists s: nat, d: nat ::
      FirstBox(a, boxes, proximity, s) && FirstBox(b, boxes, proximity, d) && Directed(arrow, boxes, a, b, s, d, link)
  }

  /** The vertices of the contracted graph that some box claims, with the first box that does. */
  ghost predicate TouchingBoxes(g: Adjacency, boxes: seq<Box>, proximity: int, boxOf: map<Point, nat>) {
    && (forall p | p in boxOf :: p in g && FirstBox(p, boxes, proximity, boxOf[p]))
    && (forall p, i: nat | p in g && FirstBox(p, boxes, proximity, i) :: p in boxOf)
  }

  /** The steps behind the links: pixel graph, contraction to normal form, touching vertices, found pairs. */
  datatype Trace = Trace(skeleton: Adjacency, run: Run, boxOf: map<Point, nat>, pairs: set<(Point, Point)>,
                         found: seq<(Point, Point)>)

  ghost predicate PixelGraph(pixels: seq<Point>, g: Adjacency) {
    && Simple(g) && (forall a :: a in g <==> a in pixels)
    && (forall a, b | a in pixels :: b in g[a] <==> b in pixels && Touching(a, b))
    && (forall a, b | a in pixels && b in g[a] :: g[a][b] == 1)
  }

  /** The links are exactly those of the contracted pixel graph, one for each linked pair. */
  ghost predicate Explains(trace: Trace, pixels: seq<Point>, boxes: seq<Box>, proximity: int, arrow: Point -> bool,
                           edges: seq<Link>) {
    && PixelGraph(pixels, trace.skeleton) && ValidRun(trace.skeleton, trace.run)
    && var g := After(trace.skeleton, trace.run);
      && NormalForm(g) && TouchingBoxes(g, boxes, proximity, trace.boxOf) && BoxesExist(trace.boxOf, boxes)
      && Recorded(g, trace.boxOf, boxes, arrow, trace.pairs, edges, trace.found)
      && Complete(g, trace.boxOf, trace.pairs)
  }

  /** Skeleton graph, contraction, boxes, search: the links, and the steps by which they were found. */
  method DetectEdgesAndArrows(pixels: seq<Point>, boxes: seq<Box>, proximity: int, arrow: Point -> bool)
    returns (edges: seq<Link>, ghost trace: Trace)
    ensures Explains(trace, pixels, boxes, proximity, arrow, edges)
    ensures LinksAreDrawn(trace.skeleton, boxes, proximity, arrow, edges, trace.found)
    ensures forall edge | edge in edges :: edge.src < |boxes| && edge.dst < |boxes| && edge.src != edge.dst
  {
    var g := BuildSkeletonGraph(pixels);
    ghost var skeleton := g.adj;
    var simple, run := SimplifyGraphTopology(g);
    RunKeepsDistances(skeleton, run);
    var vertices := Listed(simple.adj.Keys);
    var boxOf := MapGraphNodesToBoxes(vertices, boxes, proximity);
    var finder := new LinkFinder(simple.adj, boxOf, boxes, arrow);
    var order := Listed(boxOf.Keys);
    finder.DetectLinks(order);
    edges := finder.detectedEdges;
    trace := Trace(skeleton, run, boxOf, finder.processedPairs, finder.found);
    ExplainedAreDrawn(trace, pixels, boxes, proximity, arrow, edges);
  }

  lemma FoundIsDrawn(g: Adjacency, trace: Trace, boxes: seq<Box>, proximity: int, arrow: Point -> bool,
                     edges: seq<Link>, i: nat)
    requires TouchingBoxes(g, boxes, proximity, trace.boxOf) && BoxesExist(trace.boxOf, boxes)
    requires Recorded(g, trace.boxOf, boxes, arrow, trace.pairs, edges, trace.found) && i < |edges|
    ensures edges[i].src < |boxes| && edges[i].dst < |boxes| && edges[i].src != edges[i].dst
    ensures JoinsRims(boxes, proximity, arrow, edges[i], trace.found[i].0, trace.found[i].1)
    ensures Linked(g, trace.boxOf, trace.found[i].0, trace.found[i].1)
  {
    var (a, b) := trace.found[i];
    assert Linked(g, trace.boxOf, trace.found[i].0, trace.found[i].1);
    var s, d := trace.boxOf[a], trace.boxOf[b];
    assert FirstBox(a, boxes, proximity, s) && FirstBox(b, boxes, proximity, d);
    OrientIsDirected(arrow, boxes, a, b, s, d);
    assert Directed(arrow, boxes, a, b, s, d, edges[i]);
  }

  lemma ExplainedAreDrawn(trace: Trace, pixels: seq<Point>, boxes: seq<Box>, proximity: int, arrow: Point -> bool,
                          edges: seq<Link>)
    requires Explains(trace, pixels, boxes, proximity, arrow, edges)
    ensures LinksAreDrawn(trace.skeleton, boxes, proximity, arrow, edges, trace.found)
    ensures forall edge | edge in edges :: edge.src < |boxes| && edge.dst < |boxes| && edge.src != edge.dst
  {
    var g := After(trace.skeleton, trace.run);
    forall i | 0 <= i < |edges|
      ensures Drawn(trace.skeleton, boxes, proximity, arrow, edges[i], trace.found[i])
      ensures edges[i].src < |boxes| && edges[i].dst < |boxes|
    {
      FoundIsDrawn(g, trace, boxes, proximity, arrow, edges, i);
      LinkIsInSkeleton(trace.skeleton, trace.run, trace.boxOf, trace.found[i].0, trace.found[i].1);
    }
  }
}
