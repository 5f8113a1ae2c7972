/** Contracting degree-2 vertices: one step, and runs of steps (flowchart/flowchart/lines.py). */
module Contraction {
  import opened Basics
  import opened Graphs

  // ----- one contraction

  ghost predicate Degree2(g: Adjacency, x: Point) {
    x in g && |g[x]| == 2
  }

  /** x has exactly the two neighbours u and v. */
  ghost predicate Between(g: Adjacency, x: Point, u: Point, v: Point) {
    x in g && u != v && g[x].Keys == {u, v}
  }

  function NewWeight(g: Adjacency, x: Point, u: Point, v: Point): nat
    requires x in g && u in g && u in g[x] && v in g[x]
  {
    var through := g[x][u] + g[x][v];
    if v in g[u] && g[u][v] < through then g[u][v] else through
  }

  /** x is replaced by an edge u-v; an edge already there keeps the smaller weight. */
  function Contract(g: Adjacency, x: Point, u: Point, v: Point): Adjacency
    requires x in g && u in g && u in g[x] && v in g[x]
  {
    WithEdge(WithoutNode(g, x), u, v, NewWeight(g, x, u, v))
  }

  lemma ContractEntries(g: Adjacency, x: Point, u: Point, v: Point)
    requires Simple(g) && Between(g, x, u, v)
    ensures u in g && v in g && u != x && v != x && x in g[u] && x in g[v]
    ensures var h := Contract(g, x, u, v);
      && h.Keys == g.Keys - {x}
      && h[u] == (g[u] - {x})[v := NewWeight(g, x, u, v)]
      && h[v] == (g[v] - {x})[u := NewWeight(g, x, u, v)]
      && (forall a | a in h && a != u && a != v :: h[a] == g[a])
  {
    assert u in g[x] && v in g[x];
    var h := Contract(g, x, u, v);
    forall a | a in h && a != u && a != v
      ensures h[a] == g[a]
    {
      assert x !in g[a];
      assert g[a] - {x} == g[a];
    }
  }

  /** The two ends of the new edge, in either order. */
  ghost predicate IsPair(a: Point, b: Point, u: Point, v: Point) {
    (a == u && b == v) || (a == v && b == u)
  }

  /** Who is joined to whom after the contraction, and with what weight. */
  lemma ContractEdge(g: Adjacency, x: Point, u: Point, v: Point, a: Point, b: Point)
    requires Simple(g) && Between(g, x, u, v) && a in g && a != x
    ensures u in g && v in g
    ensures var h := Contract(g, x, u, v);
      && a in h
      && (b in h[a] <==> (b in g[a] && b != x) || IsPair(a, b, u, v))
      && (b in h[a] ==> h[a][b] == if IsPair(a, b, u, v) then NewWeight(g, x, u, v) else g[a][b])
  {
    ContractEntries(g, x, u, v);
  }

  lemma ContractSimple(g: Adjacency, x: Point, u: Point, v: Point)
    requires Simple(g) && Between(g, x, u, v)
    ensures u in g && v in g && Simple(Contract(g, x, u, v))
  {
    ContractEntries(g, x, u, v);
    var h := Contract(g, x, u, v);
    forall a, b | a in h && b in h[a]
      ensures b in h && b != a && a in h[b] && h[b][a] == h[a][b]
    {
      ContractEdge(g, x, u, v, a, b);
      assert b in g && b != x;
      ContractEdge(g, x, u, v, b, a);
    }
  }

  lemma WalkFirst(g: Adjacency, a: Point, b: Point, t: Point, bound: nat, rest: seq<Point>)
    requires WalkBetween(g, b, t, bound, rest) && a in g && b in g[a]
    ensures WalkBetween(g, a, t, g[a][b] + bound, [a] + rest)
  {
    assert ([a] + rest)[1..] == rest;
  }

  /** A walk of the contracted graph is a walk of the old one, through x wherever the new edge was used. */
  lemma {:induction false} LiftWalk(g: Adjacency, x: Point, u: Point, v: Point, q: seq<Point>) returns (p: seq<Point>)
    requires Simple(g) && Between(g, x, u, v) && u in g && v in g
    requires IsWalk(Contract(g, x, u, v), q)
    ensures WalkBetween(g, q[0], q[|q| - 1], WalkWeight(Contract(g, x, u, v), q), p)
  {
    if |q| == 1 {
      assert q[0] in g by { ContractEntries(g, x, u, v); }
      p := q;
    } else {
      var rest := LiftWalk(g, x, u, v, q[1..]);
      p := LiftEdge(g, x, u, v, q[0], q[1], q[|q| - 1], WalkWeight(Contract(g, x, u, v), q[1..]), rest);
    }
  }

  lemma LiftEdge(g: Adjacency, x: Point, u: Point, v: Point, a: Point, b: Point, t: Point, bound: nat, rest: seq<Point>)
    returns (p: seq<Point>)
    requires Simple(g) && Between(g, x, u, v) && u in g && v in g
    requires a in Contract(g, x, u, v) && b in Contract(g, x, u, v)[a] && WalkBetween(g, b, t, bound, rest)
    ensures WalkBetween(g, a, t, Contract(g, x, u, v)[a][b] + bound, p)
  {
    assert a in g && a != x by { ContractEntries(g, x, u, v); }
    ContractEdge(g, x, u, v, a, b);
    if b in g[a] && Contract(g, x, u, v)[a][b] == g[a][b] {
      WalkFirst(g, a, b, t, bound, rest);
      p := [a] + rest;
    } else {
      assert IsPair(a, b, u, v) && g[x][a] == g[a][x];
      assert b in g[x].Keys && x in g[a];
      WalkFirst(g, x, b, t, bound, rest);
      WalkFirst(g, a, x, t, g[x][b] + bound, [x] + rest);
      p := [a] + ([x] + rest);
    }
  }

  /** A walk between vertices other than x survives the contraction without becoming heavier. */
  lemma {:induction false} ProjectWalk(g: Adjacency, x: Point, u: Point, v: Point, p: seq<Point>)
    returns (q: seq<Point>)
    requires Simple(g) && Between(g, x, u, v) && u in g && v in g
    requires IsWalk(g, p) && p[0] != x && p[|p| - 1] != x
    ensures WalkBetween(Contract(g, x, u, v), p[0], p[|p| - 1], WalkWeight(g, p), q)
    decreases |p|
  {
    if |p| == 1 {
      assert p[0] in Contract(g, x, u, v) by { ContractEntries(g, x, u, v); }
      q := p;
    } else if p[1] != x {
      var rest := ProjectWalk(g, x, u, v, p[1..]);
      q := ProjectEdge(g, x, u, v, p[0], p[1], p[|p| - 1], WalkWeight(g, p[1..]), rest);
    } else {
      WalkOver(g, p);
      var rest := ProjectWalk(g, x, u, v, p[2..]);
      q := ProjectOver(g, x, u, v, p[0], p[2], p[|p| - 1], WalkWeight(g, p[2..]), rest);
    }
  }

  lemma WalkOver(g: Adjacency, p: seq<Point>)
    requires Simple(g) && IsWalk(g, p) && |p| > 1 && p[|p| - 1] != p[1]
    ensures |p| > 2 && IsWalk(g, p[2..]) && p[0] in g && p[1] in g && p[1] in g[p[0]] && p[2] in g[p[1]]
    ensures WalkWeight(g, p) == g[p[0]][p[1]] + g[p[1]][p[2]] + WalkWeight(g, p[2..])
  {
    assert p[1..][1..] == p[2..];
  }

  lemma ProjectEdge(g: Adjacency, x: Point, u: Point, v: Point, a: Point, b: Point, t: Point, bound: nat,
                    rest: seq<Point>) returns (q: seq<Point>)
    requires Simple(g) && Between(g, x, u, v) && u in g && v in g && a in g && b in g[a] && a != x && b != x
    requires WalkBetween(Contract(g, x, u, v), b, t, bound, rest)
    ensures WalkBetween(Contract(g, x, u, v), a, t, g[a][b] + bound, q)
  {
    ContractEdge(g, x, u, v, a, b);
    WalkFirst(Contract(g, x, u, v), a, b, t, bound, rest);
    q := [a] + rest;
  }

  lemma ProjectOver(g: Adjacency, x: Point, u: Point, v: Point, a: Point, b: Point, t: Point, bound: nat,
                    rest: seq<Point>) returns (q: seq<Point>)
    requires Simple(g) && Between(g, x, u, v) && u in g && v in g && a in g && x in g[a] && b in g[x]
    requires WalkBetween(Contract(g, x, u, v), b, t, bound, rest)
    ensures WalkBetween(Contract(g, x, u, v), a, t, g[a][x] + g[x][b] + bound, q)
  {
    if a == b {
      q := rest;
    } else {
      assert a in g[x].Keys && b in g[x].Keys;
      ContractEdge(g, x, u, v, a, b);
      WalkFirst(Contract(g, x, u, v), a, b, t, bound, rest);
      q := [a] + rest;
    }
  }

  lemma ContractSameDistances(g: Adjacency, x: Point, u: Point, v: Point)
    requires Simple(g) && Between(g, x, u, v)
    ensures u in g && v in g && SameDistances(g, Contract(g, x, u, v))
  {
    ContractEntries(g, x, u, v);
    var h := Contract(g, x, u, v);
    forall s, t, bound: nat | s in h && t in h
      ensures Within(g, s, t, bound) <==> Within(h, s, t, bound)
    {
      if Within(g, s, t, bound) {
        var p :| WalkBetween(g, s, t, bound, p);
        var q := ProjectWalk(g, x, u, v, p);
        assert WalkBetween(h, s, t, bound, q);
      }
      if Within(h, s, t, bound) {
        var q :| WalkBetween(h, s, t, bound, q);
        var p := LiftWalk(g, x, u, v, q);
        assert WalkBetween(g, s, t, bound, p);
      }
    }
  }

  /** Degrees never rise; an end of the new edge loses one exactly when that edge was already there. */
  lemma ContractDegree(g: Adjacency, x: Point, u: Point, v: Point, a: Point)
    requires Simple(g) && Between(g, x, u, v) && a in g && a != x
    ensures u in g && v in g && a in Contract(g, x, u, v)
    ensures |Contract(g, x, u, v)[a]| == |g[a]| - (if (a == u || a == v) && v in g[u] then 1 else 0)
  {
    ContractEntries(g, x, u, v);
    var h := Contract(g, x, u, v);
    if a == u || a == v {
      var other := if a == u then v else u;
      assert x in g[a];
      assert v in g[u] <==> other in g[a];
      assert h[a].Keys == g[a].Keys - {x} + {other};
      assert |g[a].Keys - {x}| == |g[a].Keys| - 1;
      if other in g[a] {
        assert h[a].Keys == g[a].Keys - {x};
      } else {
        assert |h[a].Keys| == |g[a].Keys - {x}| + 1;
      }
      assert |h[a]| == |h[a].Keys| && |g[a]| == |g[a].Keys|;
    }
  }

  lemma CollapseNeedsDegree2(g: Adjacency, x: Point, u: Point, v: Point, a: Point)
    requires Simple(g) && Between(g, x, u, v) && a in g && a != x && u in g
    ensures (a == u || a == v) && v in g[u] ==> |g[a]| >= 2
  {
    if (a == u || a == v) && v in g[u] {
      var other := if a == u then v else u;
      SubsetSize({x, other}, g[a].Keys);
      assert |g[a]| == |g[a].Keys|;
    }
  }

  // ----- runs of contractions

  /** The contractions made so far, the latest one outermost. */
  datatype Run = Start | Then(prev: Run, x: Point, u: Point, v: Point)

  /** Every step removed a vertex that had exactly the two neighbours u and v at that moment. */
  ghost predicate ValidRun(g: Adjacency, run: Run)
    decreases run, 0
  {
    match run
    case Start => true
    case Then(prev, x, u, v) =>
      ValidRun(g, prev) && Between(After(g, prev), x, u, v) && u in After(g, prev) && v in After(g, prev)
  }

  ghost function After(g: Adjacency, run: Run): Adjacency
    requires ValidRun(g, run)
    decreases run, 1
  {
    match run
    case Start => g
    case Then(prev, x, u, v) => Contract(After(g, prev), x, u, v)
  }

  ghost predicate NormalForm(g: Adjacency) {
    forall a | a in g :: |g[a]| != 2
  }

  /** Any run keeps the graph simple and keeps all distances between its survivors. */
  lemma {:induction false} RunKeepsDistances(g: Adjacency, run: Run)
    requires Simple(g) && ValidRun(g, run)
    ensures Simple(After(g, run)) && SameDistances(g, After(g, run))
  {
    if run.Start? {
    } else {
      RunKeepsDistances(g, run.prev);
      ContractSimple(After(g, run.prev), run.x, run.u, run.v);
      ContractSameDistances(After(g, run.prev), run.x, run.u, run.v);
      SameDistancesTransitive(g, After(g, run.prev), After(g, run));
    }
  }

  /** For vertices of the result, lightest walks weigh the same before and after, and so does being connected. */
  lemma RunKeepsShortestPaths(g: Adjacency, run: Run, s: Point, t: Point)
    requires Simple(g) && ValidRun(g, run) && s in After(g, run) && t in After(g, run)
    ensures forall d: nat :: IsDistance(g, s, t, d) <==> IsDistance(After(g, run), s, t, d)
    ensures Connected(g, s, t) <==> Connected(After(g, run), s, t)
  {
    RunKeepsDistances(g, run);
    var h := After(g, run);
    forall d: nat
      ensures IsDistance(g, s, t, d) <==> IsDistance(h, s, t, d)
    {
      forall w: nat
        ensures Within(g, s, t, w) <==> Within(h, s, t, w)
      {
      }
    }
  }

  lemma {:induction false} RunDegrees(g: Adjacency, run: Run, a: Point)
    requires Simple(g) && ValidRun(g, run) && a in g
    ensures a in After(g, run) ==> |After(g, run)[a]| <= |g[a]|
    ensures |g[a]| < 2 ==> a in After(g, run) && |After(g, run)[a]| == |g[a]|
  {
    if run.Start? {
    } else {
      RunDegrees(g, run.prev, a);
      RunKeepsDistances(g, run.prev);
      var h := After(g, run.prev);
      ContractEntries(h, run.x, run.u, run.v);
      if a in h && a != run.x {
        ContractDegree(h, run.x, run.u, run.v, a);
        CollapseNeedsDegree2(h, run.x, run.u, run.v, a);
      } else if a == run.x {
        assert |h[a]| == |h[a].Keys|;
      }
    }
  }

  /** No component disappears: every original vertex is connected to some vertex of the result. */
  lemma {:induction false} RunCovers(g: Adjacency, run: Run, a: Point) returns (b: Point)
    requires Simple(g) && ValidRun(g, run) && a in g
    ensures b in After(g, run) && Connected(g, a, b)
  {
    if run.Start? {
      b := a;
      assert WalkBetween(g, a, a, 0, [a]);
      assert Within(g, a, a, 0);
    } else {
      b := RunCovers(g, run.prev, a);
      RunKeepsDistances(g, run.prev);
      var h := After(g, run.prev);
      ContractEntries(h, run.x, run.u, run.v);
      if b == run.x {
        var p := [run.x, run.u];
        assert IsWalk(h, p[1..]);
        assert WalkBetween(h, run.x, run.u, WalkWeight(h, p), p);
        assert Within(h, run.x, run.u, WalkWeight(h, p));
        var w: nat :| Within(g, a, b, w);
        WithinTransitive(g, a, b, run.u, w, WalkWeight(h, p));
        b := run.u;
      }
    }
  }
}
