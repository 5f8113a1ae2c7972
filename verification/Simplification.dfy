/** The loop that contracts until no vertex of degree 2 is left (flowchart/flowchart/lines.py). */
module Simplification {
  import opened Basics
  import opened Graphs
  import opened Contraction
  import opened Chains
  import opened Survival

  /** The vertices of degree 2, in any order. */
  method Degree2Nodes(g: Adjacency) returns (nodes: seq<Point>)
    ensures forall x :: x in nodes <==> x in g && |g[x]| == 2
    ensures forall i, k | 0 <= i < k < |nodes| :: nodes[i] != nodes[k]
  {
    nodes := Listed(set x | x in g && |g[x]| == 2);
  }

  lemma NoneLeft(g: Adjacency, nodes: seq<Point>)
    requires nodes == [] && forall x :: x in nodes <==> x in g && |g[x]| == 2
    ensures NormalForm(g)
  {
    forall a | a in g
      ensures |g[a]| != 2
    {
      assert a !in nodes;
    }
  }

  /** One pass of the inner loop body: joins the two neighbours of `node` and drops it. */
  method ContractNode(simple: Graph, node: Point) returns (ghost u: Point, ghost v: Point)
    requires Simple(simple.adj) && Degree2(simple.adj, node)
    modifies simple
    ensures Between(old(simple.adj), node, u, v) && u in old(simple.adj) && v in old(simple.adj)
    ensures simple.adj == Contract(old(simple.adj), node, u, v)
    ensures |simple.adj| == |old(simple.adj)| - 1
  {
    ghost var before := simple.adj;
    var a, b := TwoNeighbors(simple.adj, node);
    u, v := a, b;
    ContractShrinks(before, node, a, b);
    var w1 := simple.adj[a][node];
    var w2 := simple.adj[node][b];
    NewWeightIs(before, node, a, b);
    simple.RemoveNode(node);
    var w := w1 + w2;
    if b in simple.adj[a] {
      var currentW := simple.adj[a][b];
      if currentW <= w { w := currentW; }
    }
    simple.AddEdge(a, b, w);
  }

  /** The new weight as it is computed after x has been removed. */
  lemma NewWeightIs(g: Adjacency, x: Point, u: Point, v: Point)
    requires Simple(g) && Between(g, x, u, v)
    ensures u in g && x in g[u] && v in g[x] && u in WithoutNode(g, x)
    ensures var rest, w := WithoutNode(g, x)[u], g[u][x] + g[x][v];
      NewWeight(g, x, u, v) == if v in rest && rest[v] <= w then rest[v] else w
  {
    assert u in g[x] && v in g[x];
    assert WithoutNode(g, x)[u] == g[u] - {x};
  }

  method TwoNeighbors(g: Adjacency, node: Point) returns (a: Point, b: Point)
    requires Degree2(g, node)
    ensures Between(g, node, a, b)
  {
    var neighbors := g[node].Keys;
    assert |neighbors| == 2;
    a :| a in neighbors;
    assert |neighbors - {a}| == 1;
    b :| b in neighbors - {a};
    TwoElements(neighbors, a, b);
  }

  lemma ContractShrinks(g: Adjacency, x: Point, u: Point, v: Point)
    requires Simple(g) && Between(g, x, u, v)
    ensures u in g && v in g && x in g[u] && |Contract(g, x, u, v)| == |g| - 1
  {
    ContractEntries(g, x, u, v);
    var h := Contract(g, x, u, v);
    assert |h| == |h.Keys| && |g| == |g.Keys|;
  }

  /** h has no other vertices than g, and none with a higher degree. */
  ghost predicate Shrunk(g: Adjacency, h: Adjacency) {
    forall a | a in h :: a in g && |h[a]| <= |g[a]|
  }

  lemma ContractShrunk(g: Adjacency, x: Point, u: Point, v: Point)
    requires Simple(g) && Between(g, x, u, v)
    ensures u in g && x in g[u] && Shrunk(g, Contract(g, x, u, v)) && x !in Contract(g, x, u, v)
  {
    ContractEntries(g, x, u, v);
    forall a | a in Contract(g, x, u, v)
      ensures a in g && |Contract(g, x, u, v)[a]| <= |g[a]|
    {
      ContractDegree(g, x, u, v, a);
    }
  }

  /** The first k of the listed vertices have been visited: they are gone or have fewer than two neighbours. */
  ghost predicate Visited(h: Adjacency, nodes: seq<Point>, k: nat)
    requires k <= |nodes|
  {
    forall m | 0 <= m < k && nodes[m] in h :: |h[nodes[m]]| < 2
  }

  lemma ShrunkAgain(g: Adjacency, h: Adjacency, k: Adjacency, nodes: seq<Point>, n: nat)
    requires Shrunk(g, h) && Shrunk(h, k) && n <= |nodes| && Visited(h, nodes, n)
    ensures Shrunk(g, k) && Visited(k, nodes, n)
  {
  }

  lemma FewerKeys(g: Adjacency, h: Adjacency, x: Point)
    requires Shrunk(g, h) && x in g && x !in h
    ensures |h| < |g|
  {
    ProperSubsetSize(h.Keys, g.Keys);
    assert |h| == |h.Keys| && |g| == |g.Keys|;
  }

  /** Behind the next vertex, which is gone or has kept fewer than two neighbours. */
  lemma VisitedNext(before: Adjacency, h: Adjacency, nodes: seq<Point>, i: nat)
    requires i < |nodes| && Visited(h, nodes, i) && Shrunk(before, h) && Degree2(before, nodes[i])
    requires nodes[i] in h ==> |h[nodes[i]]| != 2
    ensures Visited(h, nodes, i + 1)
  {
  }

  /** Contracts one listed vertex, if it is still there with degree 2. */
  method ContractIfStill(simple: Graph, nodes: seq<Point>, i: nat, ghost before: Adjacency, ghost g: Adjacency,
                         ghost run0: Run) returns (contracted: bool, ghost run: Run)
    requires Simple(g) && ValidRun(g, run0) && simple.adj == After(g, run0)
    requires i < |nodes| && Degree2(before, nodes[i]) && Shrunk(before, simple.adj) && Visited(simple.adj, nodes, i)
    modifies simple
    ensures ValidRun(g, run) && simple.adj == After(g, run)
    ensures Shrunk(before, simple.adj) && Shrunk(old(simple.adj), simple.adj) && Visited(simple.adj, nodes, i + 1)
    ensures contracted <==> Degree2(old(simple.adj), nodes[i])
    ensures contracted ==> nodes[i] !in simple.adj && run.Then? && run.x == nodes[i] && run.prev == run0
    ensures !contracted ==> simple.adj == old(simple.adj) && run == run0
  {
    contracted, run := false, run0;
    var node := nodes[i];
    if node in simple.adj && |simple.adj[node]| == 2 {
      ghost var now := simple.adj;
      assert Simple(now) by { RunKeepsDistances(g, run); }
      ghost var u, v := ContractNode(simple, node);
      ContractShrunk(now, node, u, v);
      ShrunkAgain(before, now, simple.adj, nodes, i);
      run := Then(run, node, u, v);
      contracted := true;
    }
    VisitedNext(before, simple.adj, nodes, i);
  }

  /** One pass over the listed vertices; the first one is contracted for sure. */
  method ContractListed(simple: Graph, nodes: seq<Point>, ghost g: Adjacency, ghost run0: Run, ghost fixed: set<Point>)
    returns (didSimplify: bool, ghost run: Run)
    requires Simple(g) && ValidRun(g, run0) && simple.adj == After(g, run0)
    requires nodes != [] && forall x | x in nodes :: Degree2(simple.adj, x)
    modifies simple
    ensures ValidRun(g, run) && simple.adj == After(g, run)
    ensures didSimplify && nodes[0] !in simple.adj && |simple.adj| < |old(simple.adj)|
    ensures Shrunk(old(simple.adj), simple.adj) && Visited(simple.adj, nodes, |nodes|)
    ensures Spares(run0, fixed) && (forall x | x in nodes :: x !in fixed) ==> Spares(run, fixed)
  {
    didSimplify, run := false, run0;
    ghost var before := simple.adj;
    for i := 0 to |nodes|
      invariant ValidRun(g, run) && simple.adj == After(g, run)
      invariant Shrunk(before, simple.adj) && Visited(simple.adj, nodes, i)
      invariant if i == 0 then simple.adj == before else didSimplify && nodes[0] !in simple.adj
      invariant Spares(run0, fixed) && (forall x | x in nodes :: x !in fixed) ==> Spares(run, fixed)
    {
      assert nodes[i] in nodes && Degree2(before, nodes[i]);
      var contracted;
      contracted, run := ContractIfStill(simple, nodes, i, before, g, run);
      didSimplify := didSimplify || contracted;
    }
    assert nodes[0] in nodes;
    FewerKeys(before, simple.adj, nodes[0]);
  }

  // ----- what the passes do to endpoints and junctions

  ghost predicate AllSurvive(g: Adjacency, h: Adjacency) {
    Fixed(g) <= h.Keys
  }

  ghost predicate SomeTwoArms(g: Adjacency) {
    exists a :: a in Fixed(g) && TwoArms(g, a)
  }

  /** An endpoint or junction with two arms is gone. */
  ghost predicate Lost(g: Adjacency, h: Adjacency) {
    exists a :: a in Fixed(g) && a !in h && TwoArms(g, a)
  }

  /** Before the first pass nothing is contracted; behind it everything is but endpoints and junctions; behind the
      second pass one of these is gone. */
  ghost predicate Phase(g: Adjacency, run: Run, pass: nat)
    requires ValidRun(g, run)
  {
    if pass == 0 then run == Start
    else if pass == 1 then Spares(run, Fixed(g)) && Settled(After(g, run), Fixed(g))
    else Lost(g, After(g, run))
  }

  lemma FirstPass(g: Adjacency, run: Run, nodes: seq<Point>)
    requires Simple(g) && ValidRun(g, run) && Spares(run, Fixed(g)) && Shrunk(g, After(g, run))
    requires (forall x :: x in nodes <==> x in g && |g[x]| == 2) && Visited(After(g, run), nodes, |nodes|)
    ensures Phase(g, run, 1)
  {
    SparingKeepsArms(g, run);
    var h := After(g, run);
    forall n | n in h && n !in Fixed(g)
      ensures |h[n]| != 2
    {
      assert n in nodes;
      var m :| 0 <= m < |nodes| && nodes[m] == n;
    }
  }

  lemma LaterPass(g: Adjacency, run: Run, pass: nat, next: Run, node: Point)
    requires Simple(g) && ValidRun(g, run) && ValidRun(g, next) && Phase(g, run, pass) && pass > 0
    requires Degree2(After(g, run), node) && Shrunk(After(g, run), After(g, next)) && node !in After(g, next)
    ensures Phase(g, next, pass + 1)
  {
    if pass == 1 {
      assert node in Fixed(g);
      DegreeTwoIsTwoArms(g, run, node);
    } else {
      var a :| a in Fixed(g) && a !in After(g, run) && TwoArms(g, a);
      assert a !in After(g, next);
    }
  }

  /** At the end all endpoints and junctions are there exactly if none of them has two arms in the input. */
  lemma SurvivalAtTheEnd(g: Adjacency, run: Run, pass: nat)
    requires Simple(g) && ValidRun(g, run) && Phase(g, run, pass) && NormalForm(After(g, run))
    ensures AllSurvive(g, After(g, run)) <==> !SomeTwoArms(g)
  {
    if pass <= 1 {
      assert Spares(run, Fixed(g));
      SparingKeepsArms(g, run);
      forall a | a in Fixed(g)
        ensures !TwoArms(g, a)
      {
        DegreeTwoIsTwoArms(g, run, a);
      }
    }
  }

  /** Contracts degree-2 vertices of a copy of `original` until none is left. */
  method SimplifyGraphTopology(original: Graph) returns (simple: Graph, ghost run: Run)
    requires Simple(original.adj)
    ensures fresh(simple)
    ensures ValidRun(original.adj, run) && simple.adj == After(original.adj, run)
    ensures NormalForm(simple.adj)
    ensures EndsAndJunctionsKept(original.adj, simple.adj) <==> !Collapsible(original.adj, Fixed(original.adj))
    ensures AllSurvive(original.adj, simple.adj) <==> !SomeTwoArms(original.adj)
  {
    simple := new Graph.Copy(original);
    run := Start;
    ghost var pass := 0;
    while true
      invariant fresh(simple)
      invariant ValidRun(original.adj, run) && simple.adj == After(original.adj, run)
      invariant Phase(original.adj, run, pass)
      decreases |simple.adj|
    {
      var nodesToRemove := Degree2Nodes(simple.adj);
      if nodesToRemove == [] {
        NoneLeft(simple.adj, nodesToRemove);
        break;
      }
      ghost var before := run;
      var didSimplify;
      didSimplify, run := ContractListed(simple, nodesToRemove, original.adj, run, Fixed(original.adj));
      if !didSimplify {
        break;
      }
      if pass == 0 {
        FirstPass(original.adj, run, nodesToRemove);
      } else {
        assert nodesToRemove[0] in nodesToRemove;
        LaterPass(original.adj, before, pass, run, nodesToRemove[0]);
      }
      pass := pass + 1;
    }
    KeptExactlyWithoutChains(original.adj, run);
    SurvivalAtTheEnd(original.adj, run, pass);
  }
}
