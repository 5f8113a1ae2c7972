/** The graph of the pixels of a skeleton (flowchart/flowchart/lines.py). */
module Skeleton {
  import opened Basics
  import opened Graphs

  /** Different pixels that touch, diagonally or not. */
  predicate Touching(a: Point, b: Point) {
    a != b && -1 <= a.x - b.x <= 1 && -1 <= a.y - b.y <= 1
  }

  /** Right, down-right, down and down-left. */
  function ForwardNeighbors(p: Point): seq<Point> {
    [Point(p.x + 1, p.y), Point(p.x + 1, p.y + 1), Point(p.x, p.y + 1), Point(p.x - 1, p.y + 1)]
  }

  /** g has an edge, of weight 1, between exactly the pairs of vertices that `linked` names. */
  ghost predicate UnitEdges(g: Adjacency, pixels: set<Point>, linked: set<(Point, Point)>) {
    && g.Keys == pixels
    && (forall a, b | a in g :: b in g[a] <==> b in pixels && ((a, b) in linked || (b, a) in linked))
    && (forall a, b | a in g && b in g[a] :: g[a][b] == 1)
  }

  /** The pairs (a, b) with a among the first pixels and b after a in its own scan. */
  ghost function ForwardPairs(done: seq<Point>): set<(Point, Point)> {
    set a, b | a in done && b in ForwardNeighbors(a) :: (a, b)
  }

  /** One vertex per pixel; an edge of weight 1 exactly between touching pixels. */
  method BuildSkeletonGraph(pixels: seq<Point>) returns (g: Graph)
    ensures fresh(g) && Simple(g.adj)
    ensures forall a :: a in g.adj <==> a in pixels
    ensures forall a, b | a in pixels :: b in g.adj[a] <==> b in pixels && Touching(a, b)
    ensures forall a, b | a in pixels && b in g.adj[a] :: g.adj[a][b] == 1
  {
    g := new Graph();
    for i := 0 to |pixels|
      invariant fresh(g)
      invariant forall a :: a in g.adj <==> a in pixels[..i]
      invariant forall a | a in g.adj :: g.adj[a] == map[]
    {
      g.AddNode(pixels[i]);
    }
    var nodeSet := g.adj.Keys;
    for i := 0 to |pixels|
      invariant fresh(g)
      invariant UnitEdges(g.adj, nodeSet, ForwardPairs(pixels[..i]))
    {
      AddForwardEdges(g, pixels[i], nodeSet, ForwardPairs(pixels[..i]));
      assert pixels[..i + 1] == pixels[..i] + [pixels[i]];
      assert ForwardPairs(pixels[..i + 1]) ==
        ForwardPairs(pixels[..i]) + PairsWith(pixels[i], ForwardNeighbors(pixels[i]));
    }
    assert pixels[..|pixels|] == pixels;
    UnitEdgesTouch(g.adj, pixels, nodeSet);
  }

  lemma UnitEdgesTouch(g: Adjacency, pixels: seq<Point>, nodeSet: set<Point>)
    requires UnitEdges(g, nodeSet, ForwardPairs(pixels)) && forall a :: a in nodeSet <==> a in pixels
    ensures Simple(g)
    ensures forall a, b | a in pixels :: b in g[a] <==> b in pixels && Touching(a, b)
    ensures forall a, b | a in pixels && b in g[a] :: g[a][b] == 1
  {
    forall a, b | a in pixels && b in pixels
      ensures (a, b) in ForwardPairs(pixels) || (b, a) in ForwardPairs(pixels) <==> Touching(a, b)
    {
      TouchingIsForward(a, b);
    }
  }

  lemma TouchingIsForward(a: Point, b: Point)
    ensures Touching(a, b) <==> b in ForwardNeighbors(a) || a in ForwardNeighbors(b)
  {
    var f, h := ForwardNeighbors(a), ForwardNeighbors(b);
    assert f[0].x == a.x + 1 && h[0].x == b.x + 1;
    assert Touching(a, b) ==> b == f[0] || b == f[1] || b == f[2] || b == f[3] ||
                              a == h[0] || a == h[1] || a == h[2] || a == h[3];
  }

  /** The pairs of p with the points of a list. */
  ghost function PairsWith(p: Point, list: seq<Point>): set<(Point, Point)> {
    set b | b in list :: (p, b)
  }

  lemma UnitEdgeAdded(g: Adjacency, pixels: set<Point>, linked: set<(Point, Point)>, p: Point, n: Point)
    requires UnitEdges(g, pixels, linked) && p in pixels && n in pixels && p != n
    ensures UnitEdges(WithEdge(g, p, n, 1), pixels, linked + {(p, n)})
  {
  }

  lemma UnitEdgeAbsent(g: Adjacency, pixels: set<Point>, linked: set<(Point, Point)>, p: Point, n: Point)
    requires UnitEdges(g, pixels, linked) && n !in pixels
    ensures UnitEdges(g, pixels, linked + {(p, n)})
  {
  }

  method AddForwardEdges(g: Graph, p: Point, nodeSet: set<Point>, ghost linked: set<(Point, Point)>)
    requires p in nodeSet && UnitEdges(g.adj, nodeSet, linked)
    modifies g
    ensures UnitEdges(g.adj, nodeSet, linked + PairsWith(p, ForwardNeighbors(p)))
  {
    var neighbors := ForwardNeighbors(p);
    ghost var done := linked;
    for k := 0 to |neighbors|
      invariant UnitEdges(g.adj, nodeSet, done) && done == linked + PairsWith(p, neighbors[..k])
    {
      var n := neighbors[k];
      assert n != p;
      if n in nodeSet {
        UnitEdgeAdded(g.adj, nodeSet, done, p, n);
        g.AddEdge(p, n, 1);
      } else {
        UnitEdgeAbsent(g.adj, nodeSet, done, p, n);
      }
      done := done + {(p, n)};
      assert neighbors[..k + 1] == neighbors[..k] + [n];
      assert PairsWith(p, neighbors[..k + 1]) == PairsWith(p, neighbors[..k]) + {(p, n)};
    }
    assert neighbors[..|neighbors|] == neighbors;
  }
}
