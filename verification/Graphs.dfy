/** Undirected weighted graphs as networkx keeps them: a map from each vertex to its neighbours and weights. */
module Graphs {

  datatype Point = Point(x: int, y: int)

  type Adjacency = map<Point, map<Point, nat>>

  /** Every edge is stored from both ends with one weight, and no vertex is its own neighbour. */
  ghost predicate Simple(g: Adjacency) {
    forall u, v | u in g && v in g[u] :: v in g && v != u && u in g[v] && g[v][u] == g[u][v]
  }

  function WithoutNode(g: Adjacency, x: Point): Adjacency {
    map v | v in g && v != x :: g[v] - {x}
  }

  /** Endpoints that are not yet vertices become vertices, as in networkx. */
  function WithEdge(g: Adjacency, u: Point, v: Point, w: nat): Adjacency {
    var gu := g[u := (if u in g then g[u] else map[])[v := w]];
    gu[v := (if v in gu then gu[v] else map[])[u := w]]
  }

  class Graph {
    var adj: Adjacency

    constructor ()
      ensures adj == map[]
    {
      adj := map[];
    }

    constructor Copy(other: Graph)
      ensures adj == other.adj
    {
      adj := other.adj;
    }

    method AddNode(x: Point)
      modifies this
      ensures adj == if x in old(adj) then old(adj) else old(adj)[x := map[]]
    {
      if x !in adj {
        adj := adj[x := map[]];
      }
    }

    method RemoveNode(x: Point)
      requires x in adj
      modifies this
      ensures adj == WithoutNode(old(adj), x)
    {
      adj := WithoutNode(adj, x);
    }

    method AddEdge(u: Point, v: Point, w: nat)
      modifies this
      ensures adj == WithEdge(old(adj), u, v, w)
    {
      adj := WithEdge(adj, u, v, w);
    }
  }

  // ----- walks and distances

  ghost predicate IsWalk(g: Adjacency, p: seq<Point>) {
    && p != []
    && p[0] in g
    && (|p| > 1 ==> p[1] in g[p[0]] && IsWalk(g, p[1..]))
  }

  ghost function WalkWeight(g: Adjacency, p: seq<Point>): nat
    requires IsWalk(g, p)
  {
    if |p| == 1 then 0 else g[p[0]][p[1]] + WalkWeight(g, p[1..])
  }

  ghost predicate WalkBetween(g: Adjacency, s: Point, t: Point, bound: nat, p: seq<Point>) {
    IsWalk(g, p) && p[0] == s && p[|p| - 1] == t && WalkWeight(g, p) <= bound
  }

  /** Some walk from s to t weighs at most `bound`. */
  ghost predicate Within(g: Adjacency, s: Point, t: Point, bound: nat) {
    exists p :: WalkBetween(g, s, t, bound, p)
  }

  ghost predicate Connected(g: Adjacency, s: Point, t: Point) {
    exists bound: nat :: Within(g, s, t, bound)
  }

  /** d is the weight of a lightest walk from s to t. */
  ghost predicate IsDistance(g: Adjacency, s: Point, t: Point, d: nat) {
    Within(g, s, t, d) && forall w: nat | w < d :: !Within(g, s, t, w)
  }

  /** The vertices of h have in h the bounds on walks that they have in g. */
  ghost predicate SameDistances(g: Adjacency, h: Adjacency) {
    && h.Keys <= g.Keys
    && forall s, t, bound: nat | s in h && t in h :: Within(g, s, t, bound) <==> Within(h, s, t, bound)
  }

  lemma SameDistancesTransitive(g: Adjacency, h: Adjacency, k: Adjacency)
    requires SameDistances(g, h) && SameDistances(h, k)
    ensures SameDistances(g, k)
  {
    forall s, t, bound: nat | s in k && t in k
      ensures Within(g, s, t, bound) <==> Within(k, s, t, bound)
    {
      assert s in h && t in h;
    }
  }

  lemma {:induction false} WalkAppend(g: Adjacency, p: seq<Point>, q: seq<Point>)
    requires IsWalk(g, p) && IsWalk(g, q) && p[|p| - 1] == q[0]
    ensures IsWalk(g, p + q[1..]) && WalkWeight(g, p + q[1..]) == WalkWeight(g, p) + WalkWeight(g, q)
    ensures (p + q[1..])[|p + q[1..]| - 1] == q[|q| - 1]
  {
    if |p| == 1 {
      assert p + q[1..] == q;
    } else {
      WalkAppend(g, p[1..], q);
      assert (p + q[1..])[1..] == p[1..] + q[1..];
    }
  }

  lemma WithinTransitive(g: Adjacency, s: Point, m: Point, t: Point, b1: nat, b2: nat)
    requires Within(g, s, m, b1) && Within(g, m, t, b2)
    ensures Within(g, s, t, b1 + b2)
  {
    var p :| WalkBetween(g, s, m, b1, p);
    var q :| WalkBetween(g, m, t, b2, q);
    WalkAppend(g, p, q);
    assert WalkBetween(g, s, t, b1 + b2, p + q[1..]);
  }
}
