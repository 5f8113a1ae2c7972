/** Which endpoints and junctions survive the whole simplification as vertices (flowchart/flowchart/lines.py). */
module Survival {
  import opened Basics
  import opened Graphs
  import opened Contraction
  import opened Chains

  // ----- what leaves a fixed vertex

  ghost predicate ChainBy(g: Adjacency, fixed: set<Point>, a: Point, n: Point, b: Point, p: seq<Point>) {
    Chain(g, fixed, p) && p[0] == a && p[1] == n && p[|p| - 1] == b
  }

  /** A chain that leaves a towards n ends in b. */
  ghost predicate Leads(g: Adjacency, fixed: set<Point>, a: Point, n: Point, b: Point) {
    exists p :: ChainBy(g, fixed, a, n, b, p)
  }

  ghost predicate Joins(g: Adjacency, fixed: set<Point>, a: Point, b: Point) {
    exists n :: Leads(g, fixed, a, n, b)
  }

  /** The other fixed vertices that some chain joins to a. */
  ghost function OtherEnds(g: Adjacency, fixed: set<Point>, a: Point): set<Point> {
    set b | b in fixed && b != a && Joins(g, fixed, a, b)
  }

  /** The neighbours towards which a chain leaves a that comes back: two for each closed chain. */
  ghost function LoopStarts(g: Adjacency, fixed: set<Point>, a: Point): set<Point>
    requires a in g
  {
    set n | n in g[a].Keys && Leads(g, fixed, a, n, a)
  }

  /** What is left of closed chains: neighbours that lead nowhere else. */
  ghost function Pendants(g: Adjacency, fixed: set<Point>, a: Point): set<Point>
    requires a in g
  {
    set n | n in g[a].Keys && n in g && n !in fixed && |g[n]| == 1
  }

  /** Twice the number of other ends, closed chains and pendants of a. */
  ghost function Arms(g: Adjacency, fixed: set<Point>, a: Point): nat
    requires a in g
  {
    2 * |OtherEnds(g, fixed, a)| + |LoopStarts(g, fixed, a)| + 2 * |Pendants(g, fixed, a)|
  }

  /** Nothing hangs on a vertex of degree 2 that is not fixed. */
  ghost predicate NoTails(g: Adjacency, fixed: set<Point>) {
    forall n {:trigger NoTail(g, fixed, n)} | n in g :: NoTail(g, fixed, n)
  }

  ghost predicate NoTail(g: Adjacency, fixed: set<Point>, n: Point)
    requires n in g
  {
    n !in fixed && |g[n]| == 1 ==> forall m | m in g[n] :: m in g && (m in fixed || |g[m]| != 2)
  }

  ghost predicate Tame(g: Adjacency, fixed: set<Point>) {
    Thin(g, fixed) && NoTails(g, fixed)
  }

  /** The situation before one contraction of a vertex that is not fixed, and what it has to keep. */
  ghost predicate SameArms(g: Adjacency, h: Adjacency, fixed: set<Point>) {
    && Tame(h, fixed)
    && forall a | a in fixed && a in g && a in h :: Arms(h, fixed, a) == Arms(g, fixed, a)
  }

  // ----- a contraction that meets no edge

  function Across(a: Point, u: Point, v: Point): Point {
    if a == u then v else u
  }

  lemma LeadsShorter(g: Adjacency, fixed: set<Point>, x: Point, u: Point, v: Point, a: Point, n: Point, b: Point)
    requires Step(g, fixed, x, u, v) && v !in g[u] && Leads(g, fixed, a, n, b)
    ensures n == x ==> a == u || a == v
    ensures Leads(Contract(g, x, u, v), fixed, a, if n == x then Across(a, u, v) else n, b)
  {
    var p :| ChainBy(g, fixed, a, n, b, p);
    EraseTrail(g, fixed, x, u, v, p);
    if n == x {
      EraseAtX(g, fixed, x, u, v, p);
    }
    assert ChainBy(Contract(g, x, u, v), fixed, a, if n == x then Across(a, u, v) else n, b, Erase(p, x));
  }

  lemma LeadsLonger(g: Adjacency, fixed: set<Point>, x: Point, u: Point, v: Point, a: Point, m: Point, b: Point)
    requires Step(g, fixed, x, u, v) && v !in g[u] && Leads(Contract(g, x, u, v), fixed, a, m, b)
    ensures Leads(g, fixed, a, if IsPair(a, m, u, v) then x else m, b)
  {
    var q :| ChainBy(Contract(g, x, u, v), fixed, a, m, b, q);
    InsertTrail(g, fixed, x, u, v, q);
    assert ChainBy(g, fixed, a, if IsPair(a, m, u, v) then x else m, b, Insert(q, x, u, v));
  }

  lemma EndsAcross(g: Adjacency, fixed: set<Point>, x: Point, u: Point, v: Point, a: Point)
    requires Step(g, fixed, x, u, v) && v !in g[u]
    ensures OtherEnds(Contract(g, x, u, v), fixed, a) == OtherEnds(g, fixed, a)
  {
    var h := Contract(g, x, u, v);
    forall b
      ensures Joins(g, fixed, a, b) <==> Joins(h, fixed, a, b)
    {
      if n :| Leads(g, fixed, a, n, b) {
        LeadsShorter(g, fixed, x, u, v, a, n, b);
      }
      if n :| Leads(h, fixed, a, n, b) {
        LeadsLonger(g, fixed, x, u, v, a, n, b);
      }
    }
  }

  lemma SwapSize<T>(s: set<T>, x: T, y: T)
    requires y !in s
    ensures |if x in s then s - {x} + {y} else s| == |s|
  {
  }

  lemma LoopsAcross(g: Adjacency, fixed: set<Point>, x: Point, u: Point, v: Point, a: Point)
    requires Step(g, fixed, x, u, v) && v !in g[u] && a in fixed && a in g
    ensures a in Contract(g, x, u, v)
    ensures |LoopStarts(Contract(g, x, u, v), fixed, a)| == |LoopStarts(g, fixed, a)|
  {
    var h := Contract(g, x, u, v);
    ContractEntries(g, x, u, v);
    var before, after := LoopStarts(g, fixed, a), LoopStarts(h, fixed, a);
    if a == u || a == v {
      var other := Across(a, u, v);
      assert other !in before by { NeighborsApart(g, u, v, a); }
      assert after == if x in before then before - {x} + {other} else before by {
        forall m
          ensures m in after <==> if m == other then x in before else m != x && m in before
        {
          LoopStartAtEnd(g, fixed, x, u, v, a, m);
        }
      }
      SwapSize(before, x, other);
    } else {
      forall m
        ensures m in after <==> m in before
      {
        LoopStartElsewhere(g, fixed, x, u, v, a, m);
      }
      assert after == before;
    }
  }

  lemma NeighborsApart(g: Adjacency, u: Point, v: Point, a: Point)
    requires Simple(g) && u in g && v in g && v !in g[u] && (a == u || a == v)
    ensures Across(a, u, v) !in g[a]
  {
  }

  lemma LoopStartAtEnd(g: Adjacency, fixed: set<Point>, x: Point, u: Point, v: Point, a: Point, m: Point)
    requires Step(g, fixed, x, u, v) && v !in g[u] && a in fixed && a in g && (a == u || a == v)
    ensures a in Contract(g, x, u, v)
    ensures m in LoopStarts(Contract(g, x, u, v), fixed, a) <==>
      if m == Across(a, u, v) then x in LoopStarts(g, fixed, a) else m != x && m in LoopStarts(g, fixed, a)
  {
    var h := Contract(g, x, u, v);
    assert a != x && x in g[a] by { ContractEntries(g, x, u, v); }
    ContractEdge(g, x, u, v, a, m);
    var back := if IsPair(a, m, u, v) then x else m;
    assert IsPair(a, m, u, v) <==> m == Across(a, u, v);
    if Leads(h, fixed, a, m, a) {
      LeadsLonger(g, fixed, x, u, v, a, m, a);
    }
    if Leads(g, fixed, a, back, a) {
      LeadsShorter(g, fixed, x, u, v, a, back, a);
    }
  }

  lemma LoopStartElsewhere(g: Adjacency, fixed: set<Point>, x: Point, u: Point, v: Point, a: Point, m: Point)
    requires Step(g, fixed, x, u, v) && v !in g[u] && a in fixed && a in g && a != u && a != v
    ensures a in Contract(g, x, u, v)
    ensures m in LoopStarts(Contract(g, x, u, v), fixed, a) <==> m in LoopStarts(g, fixed, a)
  {
    var h := Contract(g, x, u, v);
    assert a in h && h[a] == g[a] && x !in g[a] by {
      ContractEntries(g, x, u, v);
      NotJoined(g, a, x);
    }
    if Leads(h, fixed, a, m, a) {
      LeadsLonger(g, fixed, x, u, v, a, m, a);
    }
    if m in g[a] && Leads(g, fixed, a, m, a) {
      LeadsShorter(g, fixed, x, u, v, a, m, a);
    }
  }

  lemma PendantsAcross(g: Adjacency, fixed: set<Point>, x: Point, u: Point, v: Point, a: Point)
    requires Step(g, fixed, x, u, v) && Tame(g, fixed) && v !in g[u] && a in fixed && a in g
    ensures a in Contract(g, x, u, v)
    ensures Pendants(Contract(g, x, u, v), fixed, a) == Pendants(g, fixed, a)
  {
    var h := Contract(g, x, u, v);
    assert a in h by { ContractEntries(g, x, u, v); }
    forall n
      ensures n in Pendants(h, fixed, a) <==> n in Pendants(g, fixed, a)
    {
      PendantAcross(g, fixed, x, u, v, a, n);
    }
  }

  lemma PendantAcross(g: Adjacency, fixed: set<Point>, x: Point, u: Point, v: Point, a: Point, n: Point)
    requires Step(g, fixed, x, u, v) && Tame(g, fixed) && v !in g[u] && a in fixed && a in g
    ensures a in Contract(g, x, u, v)
    ensures n in Pendants(Contract(g, x, u, v), fixed, a) <==> n in Pendants(g, fixed, a)
  {
    BetweenIsTwo(g, x, u, v);
    ContractEdge(g, x, u, v, a, n);
    assert n in Contract(g, x, u, v) <==> n in g && n != x by { ContractEntries(g, x, u, v); }
    if n in g && n != x && n !in fixed {
      assert |Contract(g, x, u, v)[n]| == |g[n]| by { ContractDegree(g, x, u, v, n); }
      if n == u || n == v {
        EndIsNoPendant(g, fixed, x, u, v, n);
      }
    }
  }

  lemma BetweenIsTwo(g: Adjacency, x: Point, u: Point, v: Point)
    requires Between(g, x, u, v)
    ensures |g[x]| == 2
  {
    assert |g[x]| == |g[x].Keys|;
  }

  /** An end of a vertex to be contracted that is not fixed goes on. */
  lemma EndIsNoPendant(g: Adjacency, fixed: set<Point>, x: Point, u: Point, v: Point, n: Point)
    requires Step(g, fixed, x, u, v) && NoTails(g, fixed) && n in g && n !in fixed && (n == u || n == v)
    ensures |g[n]| != 1
  {
    BetweenIsTwo(g, x, u, v);
    assert n in g[x].Keys && NoTail(g, fixed, n);
  }

  lemma TameAcross(g: Adjacency, fixed: set<Point>, x: Point, u: Point, v: Point)
    requires Step(g, fixed, x, u, v) && Tame(g, fixed) && v !in g[u]
    ensures Tame(Contract(g, x, u, v), fixed)
  {
    var h := Contract(g, x, u, v);
    ContractThin(g, fixed, x, u, v);
    forall n | n in h
      ensures NoTail(h, fixed, n)
    {
      forall m | n !in fixed && |h[n]| == 1 && m in h[n]
        ensures m in h && (m in fixed || |h[m]| != 2)
      {
        TailAcross(g, fixed, x, u, v, n, m);
      }
    }
  }

  lemma ContractThin(g: Adjacency, fixed: set<Point>, x: Point, u: Point, v: Point)
    requires Step(g, fixed, x, u, v) && Thin(g, fixed)
    ensures Thin(Contract(g, x, u, v), fixed)
  {
    var h := Contract(g, x, u, v);
    ContractSimple(g, x, u, v);
    assert h.Keys == g.Keys - {x} by { ContractEntries(g, x, u, v); }
    forall a | a in h && a !in fixed
      ensures |h[a]| <= 2
    {
      ContractDegree(g, x, u, v, a);
    }
  }

  lemma TailAcross(g: Adjacency, fixed: set<Point>, x: Point, u: Point, v: Point, n: Point, m: Point)
    requires Step(g, fixed, x, u, v) && Tame(g, fixed) && v !in g[u]
    requires n in Contract(g, x, u, v) && n !in fixed && |Contract(g, x, u, v)[n]| == 1
    requires m in Contract(g, x, u, v)[n]
    ensures m in Contract(g, x, u, v) && (m in fixed || |Contract(g, x, u, v)[m]| != 2)
  {
    assert n in g && n != x by { ContractEntries(g, x, u, v); }
    ContractDegree(g, x, u, v, n);
    assert n != u && n != v by {
      if n == u || n == v {
        EndIsNoPendant(g, fixed, x, u, v, n);
      }
    }
    ContractEdge(g, x, u, v, n, m);
    assert m in g && m != x && NoTail(g, fixed, n);
    ContractDegree(g, x, u, v, m);
  }

  lemma ArmsAcross(g: Adjacency, fixed: set<Point>, x: Point, u: Point, v: Point)
    requires Step(g, fixed, x, u, v) && Tame(g, fixed) && v !in g[u]
    ensures SameArms(g, Contract(g, x, u, v), fixed)
  {
    TameAcross(g, fixed, x, u, v);
    forall a | a in fixed && a in g && a in Contract(g, x, u, v)
      ensures Arms(Contract(g, x, u, v), fixed, a) == Arms(g, fixed, a)
    {
      EndsAcross(g, fixed, x, u, v, a);
      LoopsAcross(g, fixed, x, u, v, a);
      PendantsAcross(g, fixed, x, u, v, a);
    }
  }

  // ----- a contraction inside a triangle

  /** Chains that do not set out into the ring are the same on both sides of the contraction. */
  lemma LeadsOutside(g: Adjacency, h: Adjacency, ring: set<Point>, doors: set<Point>, fixed: set<Point>, a: Point,
                     n: Point, b: Point)
    requires Walled(g, h, ring, doors) && doors <= fixed && fixed !! ring && n !in ring
    requires Leads(g, fixed, a, n, b)
    ensures Leads(h, fixed, a, n, b)
  {
    var p :| ChainBy(g, fixed, a, n, b, p);
    WalledTrail(g, h, ring, doors, fixed, p);
    assert ChainBy(h, fixed, a, n, b, p);
  }

  /** What changes outside a triangle: nothing but edges between its corners. */
  lemma TriangleEdges(g: Adjacency, x: Point, u: Point, v: Point, a: Point)
    requires Simple(g) && Between(g, x, u, v) && u in g && v in g && v in g[u] && a in g && a != x
    ensures a in Contract(g, x, u, v) && Contract(g, x, u, v)[a].Keys == g[a].Keys - {x}
    ensures a != u && a != v ==> x !in g[a] && |Contract(g, x, u, v)[a]| == |g[a]|
    ensures a == u || a == v ==> |Contract(g, x, u, v)[a]| == |g[a]| - 1
  {
    assert u in g[v] && u in g[x].Keys && v in g[x].Keys;
    ContractEntries(g, x, u, v);
    ContractDegree(g, x, u, v, a);
    if a != u && a != v {
      NotJoined(g, a, x);
    }
  }

  // both neighbours fixed: an edge parallel to an edge goes

  /** x lies between u and v, which are joined and fixed, and h is g without x. */
  ghost predicate Thinned(g: Adjacency, h: Adjacency, fixed: set<Point>, x: Point, u: Point, v: Point) {
    && Simple(g) && Simple(h) && x in g && u in fixed && v in fixed && x !in fixed && u != v
    && g[x].Keys == {u, v} && h.Keys == g.Keys - {x} && u in h && v in h && v in g[u] && u in g[v]
    && forall a {:trigger ThinnedAt(g, h, x, u, v, a)} | a in h :: ThinnedAt(g, h, x, u, v, a)
  }

  ghost predicate ThinnedAt(g: Adjacency, h: Adjacency, x: Point, u: Point, v: Point, a: Point)
    requires a in h
  {
    && a in g && h[a].Keys == g[a].Keys - {x}
    && (a != u && a != v ==> x !in g[a] && |h[a]| == |g[a]|)
  }

  lemma StepIsThinned(g: Adjacency, fixed: set<Point>, x: Point, u: Point, v: Point)
    requires Step(g, fixed, x, u, v) && v in g[u] && u in fixed && v in fixed
    ensures Thinned(g, Contract(g, x, u, v), fixed, x, u, v)
  {
    var h := Contract(g, x, u, v);
    ContractSimple(g, x, u, v);
    assert h.Keys == g.Keys - {x} by { ContractEntries(g, x, u, v); }
    forall a | a in h
      ensures ThinnedAt(g, h, x, u, v, a)
    {
      TriangleEdges(g, x, u, v, a);
    }
  }

  lemma DoorsWalled(g: Adjacency, h: Adjacency, fixed: set<Point>, x: Point, u: Point, v: Point)
    requires Thinned(g, h, fixed, x, u, v)
    ensures Walled(g, h, {x}, {u, v}) && Walled(h, g, {x}, {u, v})
  {
    forall a | a in h
      ensures WalledAt(g, h, {x}, {u, v}, a) && WalledAt(h, g, {x}, {u, v}, a)
    {
      assert ThinnedAt(g, h, x, u, v, a);
    }
  }

  /** Over x there is only the edge from u to v. */
  lemma LeadsOverX(g: Adjacency, h: Adjacency, fixed: set<Point>, x: Point, u: Point, v: Point, a: Point, b: Point)
    requires Thinned(g, h, fixed, x, u, v) && Leads(g, fixed, a, x, b)
    ensures IsPair(a, b, u, v)
  {
    var p :| ChainBy(g, fixed, a, x, b, p);
    TrailMiddle(g, fixed, p);
    assert p[0] in g[x].Keys && p[2] in g[x].Keys;
  }

  lemma LeadsByEdge(g: Adjacency, fixed: set<Point>, a: Point, b: Point)
    requires a in g && b in g[a] && a in fixed && b in fixed
    ensures Leads(g, fixed, a, b, b)
  {
    assert ChainBy(g, fixed, a, b, b, [a, b]);
  }

  lemma EdgeInsteadOfX(g: Adjacency, h: Adjacency, fixed: set<Point>, x: Point, u: Point, v: Point, a: Point, b: Point)
    requires Thinned(g, h, fixed, x, u, v) && Leads(g, fixed, a, x, b)
    ensures Leads(h, fixed, a, b, b)
  {
    LeadsOverX(g, h, fixed, x, u, v, a, b);
    assert ThinnedAt(g, h, x, u, v, a) && b in g[a].Keys - {x};
    LeadsByEdge(h, fixed, a, b);
  }

  lemma LeadsPastX(g: Adjacency, h: Adjacency, fixed: set<Point>, x: Point, u: Point, v: Point, a: Point, n: Point,
                   b: Point)
    requires Thinned(g, h, fixed, x, u, v)
    ensures Leads(h, fixed, a, n, b) ==> n != x && Leads(g, fixed, a, n, b)
    ensures n != x && Leads(g, fixed, a, n, b) ==> Leads(h, fixed, a, n, b)
  {
    DoorsWalled(g, h, fixed, x, u, v);
    NotToX(h, fixed, x, a, b);
    if n != x {
      LeadsBothWays(g, h, {x}, {u, v}, fixed, a, n, b);
    }
  }

  lemma LeadsBothWays(g: Adjacency, h: Adjacency, ring: set<Point>, doors: set<Point>, fixed: set<Point>, a: Point,
                      n: Point, b: Point)
    requires Walled(g, h, ring, doors) && Walled(h, g, ring, doors) && doors <= fixed && fixed !! ring && n !in ring
    ensures Leads(g, fixed, a, n, b) <==> Leads(h, fixed, a, n, b)
  {
    if Leads(g, fixed, a, n, b) {
      LeadsOutside(g, h, ring, doors, fixed, a, n, b);
    }
    if Leads(h, fixed, a, n, b) {
      LeadsOutside(h, g, ring, doors, fixed, a, n, b);
    }
  }

  /** No chain leads towards a vertex that is not there. */
  lemma NotToX(h: Adjacency, fixed: set<Point>, x: Point, a: Point, b: Point)
    requires Simple(h) && x !in h
    ensures !Leads(h, fixed, a, x, b)
  {
  }

  lemma JoinsAtDoors(g: Adjacency, h: Adjacency, fixed: set<Point>, x: Point, u: Point, v: Point, a: Point, b: Point)
    requires Thinned(g, h, fixed, x, u, v)
    ensures Joins(g, fixed, a, b) <==> Joins(h, fixed, a, b)
  {
    if n :| Leads(g, fixed, a, n, b) {
      if n == x {
        EdgeInsteadOfX(g, h, fixed, x, u, v, a, b);
      } else {
        LeadsPastX(g, h, fixed, x, u, v, a, n, b);
      }
    }
    if n :| Leads(h, fixed, a, n, b) {
      LeadsPastX(g, h, fixed, x, u, v, a, n, b);
    }
  }

  lemma LoopAtDoors(g: Adjacency, h: Adjacency, fixed: set<Point>, x: Point, u: Point, v: Point, a: Point, n: Point)
    requires Thinned(g, h, fixed, x, u, v) && a in h
    ensures a in g && (n in LoopStarts(h, fixed, a) <==> n in LoopStarts(g, fixed, a))
  {
    assert ThinnedAt(g, h, x, u, v, a);
    LeadsPastX(g, h, fixed, x, u, v, a, n, a);
    if n == x && Leads(g, fixed, a, x, a) {
      LeadsOverX(g, h, fixed, x, u, v, a, a);
    }
  }

  lemma PendantAtDoors(g: Adjacency, h: Adjacency, fixed: set<Point>, x: Point, u: Point, v: Point, a: Point, n: Point)
    requires Thinned(g, h, fixed, x, u, v) && a in h
    ensures a in g && (n in Pendants(h, fixed, a) <==> n in Pendants(g, fixed, a))
  {
    assert ThinnedAt(g, h, x, u, v, a);
    assert |g[x]| == |g[x].Keys| == 2;
    if n in h && n !in fixed {
      ThinnedSame(g, h, fixed, x, u, v, n);
    }
  }

  lemma SameAtDoors(g: Adjacency, h: Adjacency, fixed: set<Point>, x: Point, u: Point, v: Point, a: Point)
    requires Thinned(g, h, fixed, x, u, v) && a in h
    ensures a in g && Arms(h, fixed, a) == Arms(g, fixed, a)
  {
    assert ThinnedAt(g, h, x, u, v, a);
    assert OtherEnds(h, fixed, a) == OtherEnds(g, fixed, a) by { EndsAtDoors(g, h, fixed, x, u, v, a); }
    forall n
      ensures n in LoopStarts(h, fixed, a) <==> n in LoopStarts(g, fixed, a)
      ensures n in Pendants(h, fixed, a) <==> n in Pendants(g, fixed, a)
    {
      LoopAtDoors(g, h, fixed, x, u, v, a, n);
      PendantAtDoors(g, h, fixed, x, u, v, a, n);
    }
    assert LoopStarts(h, fixed, a) == LoopStarts(g, fixed, a) && Pendants(h, fixed, a) == Pendants(g, fixed, a);
  }

  lemma EndsAtDoors(g: Adjacency, h: Adjacency, fixed: set<Point>, x: Point, u: Point, v: Point, a: Point)
    requires Thinned(g, h, fixed, x, u, v)
    ensures OtherEnds(h, fixed, a) == OtherEnds(g, fixed, a)
  {
    forall b
      ensures Joins(g, fixed, a, b) <==> Joins(h, fixed, a, b)
    {
      JoinsAtDoors(g, h, fixed, x, u, v, a, b);
    }
  }

  lemma NoTailAtDoors(g: Adjacency, h: Adjacency, fixed: set<Point>, x: Point, u: Point, v: Point, n: Point)
    requires Thinned(g, h, fixed, x, u, v) && n in h && n in g && NoTail(g, fixed, n)
    ensures NoTail(h, fixed, n)
  {
    if n !in fixed {
      ThinnedSame(g, h, fixed, x, u, v, n);
      forall m | |h[n]| == 1 && m in h[n].Keys
        ensures m in h && (m in fixed || |h[m]| != 2)
      {
        assert m in h && m in g[n];
        if m !in fixed {
          ThinnedSame(g, h, fixed, x, u, v, m);
        }
      }
    }
  }

  lemma ThinnedSame(g: Adjacency, h: Adjacency, fixed: set<Point>, x: Point, u: Point, v: Point, n: Point)
    requires Thinned(g, h, fixed, x, u, v) && n in h && n !in fixed
    ensures n in g && n != x && h[n].Keys == g[n].Keys && |h[n]| == |g[n]|
  {
    assert ThinnedAt(g, h, x, u, v, n);
  }

  lemma ArmsAtDoors(g: Adjacency, fixed: set<Point>, x: Point, u: Point, v: Point)
    requires Step(g, fixed, x, u, v) && Tame(g, fixed) && v in g[u] && u in fixed && v in fixed
    ensures SameArms(g, Contract(g, x, u, v), fixed)
  {
    var h := Contract(g, x, u, v);
    StepIsThinned(g, fixed, x, u, v);
    ContractThin(g, fixed, x, u, v);
    forall n | n in h
      ensures NoTail(h, fixed, n)
    {
      assert n in g && NoTail(g, fixed, n);
      NoTailAtDoors(g, h, fixed, x, u, v, n);
    }
    forall a | a in fixed && a in g && a in h
      ensures Arms(h, fixed, a) == Arms(g, fixed, a)
    {
      SameAtDoors(g, h, fixed, x, u, v, a);
    }
  }

  // one neighbour fixed: a closed chain becomes a pendant

  /** d is fixed, e is not, and x lies between them, in a triangle. */
  ghost predicate Flap(g: Adjacency, fixed: set<Point>, x: Point, d: Point, e: Point) {
    && Simple(g) && x in g && d in g && e in g && x !in fixed && e !in fixed && d in fixed && x != e
    && g[x].Keys == {d, e} && g[e].Keys == {x, d}
  }

  /** h is g with the triangle at d folded into a single edge d-e. */
  ghost predicate Folded(g: Adjacency, h: Adjacency, x: Point, d: Point, e: Point)
    requires x in g && d in g && e in g
  {
    && h.Keys == g.Keys - {x} && d in h && e in h
    && h[d].Keys == g[d].Keys - {x} && h[e].Keys == {d}
    && forall a | a in g && a != x && a != d && a != e :: a in h && h[a] == g[a]
  }

  lemma StepIsFlap(g: Adjacency, fixed: set<Point>, x: Point, u: Point, v: Point, d: Point, e: Point)
    requires Step(g, fixed, x, u, v) && Thin(g, fixed) && v in g[u] && IsPair(d, e, u, v) && d in fixed && e !in fixed
    ensures Flap(g, fixed, x, d, e)
  {
    assert d in g[x].Keys && e in g[x].Keys && d in g[e] && x in g[e];
    OnlyNeighbors(g, e, x, d);
  }

  lemma StepFolds(g: Adjacency, fixed: set<Point>, x: Point, u: Point, v: Point, d: Point, e: Point)
    requires Step(g, fixed, x, u, v) && v in g[u] && IsPair(d, e, u, v) && Flap(g, fixed, x, d, e)
    ensures Folded(g, Contract(g, x, u, v), x, d, e)
  {
    var h := Contract(g, x, u, v);
    assert h.Keys == g.Keys - {x} && d in h && e in h by { ContractEntries(g, x, u, v); }
    assert h[d].Keys == g[d].Keys - {x} by { TriangleEdges(g, x, u, v, d); }
    assert h[e].Keys == {d} by {
      TriangleEdges(g, x, u, v, e);
      assert {x, d} - {x} == {d};
    }
    forall a | a in g && a != x && a != d && a != e
      ensures a in h && h[a] == g[a]
    {
      ContractEntries(g, x, u, v);
    }
  }

  lemma FlapAway(g: Adjacency, fixed: set<Point>, x: Point, d: Point, e: Point, a: Point)
    requires Flap(g, fixed, x, d, e) && a in g && a != x && a != d && a != e
    ensures x !in g[a] && e !in g[a]
  {
    NotJoined(g, a, x);
    NotJoined(g, a, e);
  }

  lemma FlapWalled(g: Adjacency, h: Adjacency, fixed: set<Point>, x: Point, d: Point, e: Point)
    requires Flap(g, fixed, x, d, e) && Folded(g, h, x, d, e)
    ensures Walled(g, h, {x, e}, {d}) && Walled(h, g, {x, e}, {d})
  {
    forall a | a in g && a != x && a != e
      ensures WalledAt(g, h, {x, e}, {d}, a) && a in h && WalledAt(h, g, {x, e}, {d}, a)
    {
      if a != d {
        FlapAway(g, fixed, x, d, e, a);
      }
    }
  }

  /** A chain into the triangle comes from d and goes back to d. */
  lemma FlapReturns(g: Adjacency, fixed: set<Point>, x: Point, d: Point, e: Point, a: Point, n: Point, b: Point)
    requires Flap(g, fixed, x, d, e) && (n == x || n == e) && Leads(g, fixed, a, n, b)
    ensures a == d && b == d
  {
    var p :| ChainBy(g, fixed, a, n, b, p);
    TrailMiddle(g, fixed, p);
    assert p[0] in g[n].Keys && p[2] in g[n].Keys;
    var tail := p[1..];
    TrailMiddle(g, fixed, tail);
    assert tail[2] == p[3] && p[3] in g[p[2]].Keys;
  }

  lemma FlapLoops(g: Adjacency, fixed: set<Point>, x: Point, d: Point, e: Point)
    requires Flap(g, fixed, x, d, e)
    ensures Leads(g, fixed, d, x, d) && Leads(g, fixed, d, e, d)
  {
    FlapLoop(g, fixed, d, x, e);
    FlapLoop(g, fixed, d, e, x);
  }

  lemma FlapLoop(g: Adjacency, fixed: set<Point>, d: Point, n: Point, m: Point)
    requires Simple(g) && d in fixed && d in g && n !in fixed && m !in fixed && n != m && n in g && m in g
    requires g[n].Keys == {d, m} && g[m].Keys == {n, d}
    ensures Leads(g, fixed, d, n, d)
  {
    var p := [d, n, m, d];
    assert m in g[n].Keys && d in g[n].Keys && d in g[m].Keys;
    assert n in g[d];
    assert p[1..] == [n, m, d] && [n, m, d][1..] == [m, d];
    assert Trail(g, fixed, [m, d]);
    assert Trail(g, fixed, [n, m, d]);
    assert ChainBy(g, fixed, d, n, d, p);
  }

  lemma FoldedLeadsNowhere(h: Adjacency, fixed: set<Point>, d: Point, e: Point, a: Point, b: Point)
    requires Simple(h) && e in h && h[e].Keys == {d} && e !in fixed
    ensures !Leads(h, fixed, a, e, b)
  {
    forall p
      ensures !ChainBy(h, fixed, a, e, b, p)
    {
      if Trail(h, fixed, p) && |p| > 2 {
        TrailMiddle(h, fixed, p);
        assert p[1] == e ==> p[0] in h[e].Keys && p[2] in h[e].Keys;
      }
    }
  }

  lemma FlapLeads(g: Adjacency, h: Adjacency, fixed: set<Point>, x: Point, d: Point, e: Point, a: Point, n: Point,
                  b: Point)
    requires Flap(g, fixed, x, d, e) && Folded(g, h, x, d, e) && n != x && n != e
    ensures Leads(g, fixed, a, n, b) <==> Leads(h, fixed, a, n, b)
  {
    FlapWalled(g, h, fixed, x, d, e);
    LeadsBothWays(g, h, {x, e}, {d}, fixed, a, n, b);
  }

  lemma FlapEnds(g: Adjacency, h: Adjacency, fixed: set<Point>, x: Point, d: Point, e: Point, a: Point)
    requires Flap(g, fixed, x, d, e) && Folded(g, h, x, d, e) && Simple(h)
    ensures OtherEnds(h, fixed, a) == OtherEnds(g, fixed, a)
  {
    forall b | b != a
      ensures Joins(g, fixed, a, b) <==> Joins(h, fixed, a, b)
    {
      FlapJoins(g, h, fixed, x, d, e, a, b);
    }
  }

  lemma FlapJoins(g: Adjacency, h: Adjacency, fixed: set<Point>, x: Point, d: Point, e: Point, a: Point, b: Point)
    requires Flap(g, fixed, x, d, e) && Folded(g, h, x, d, e) && Simple(h) && a != b
    ensures Joins(g, fixed, a, b) <==> Joins(h, fixed, a, b)
  {
    if n :| Leads(g, fixed, a, n, b) {
      if n == x || n == e {
        FlapReturns(g, fixed, x, d, e, a, n, b);
      } else {
        FlapLeads(g, h, fixed, x, d, e, a, n, b);
      }
    }
    if n :| Leads(h, fixed, a, n, b) {
      NotToX(h, fixed, x, a, b);
      FoldedLeadsNowhere(h, fixed, d, e, a, b);
      FlapLeads(g, h, fixed, x, d, e, a, n, b);
    }
  }

  lemma FlapLoopStarts(g: Adjacency, h: Adjacency, fixed: set<Point>, x: Point, d: Point, e: Point, a: Point)
    requires Flap(g, fixed, x, d, e) && Folded(g, h, x, d, e) && Simple(h) && a in fixed && a in g
    ensures a in h
    ensures LoopStarts(h, fixed, a) == LoopStarts(g, fixed, a) - {x, e}
    ensures a == d ==> x in LoopStarts(g, fixed, a) && e in LoopStarts(g, fixed, a)
    ensures a != d ==> x !in LoopStarts(g, fixed, a) && e !in LoopStarts(g, fixed, a)
  {
    forall n
      ensures n in LoopStarts(h, fixed, a) <==> n in LoopStarts(g, fixed, a) && n != x && n != e
    {
      NotToX(h, fixed, x, a, a);
      FoldedLeadsNowhere(h, fixed, d, e, a, a);
      if n != x && n != e {
        FlapLeads(g, h, fixed, x, d, e, a, n, a);
      }
    }
    if a == d {
      FlapLoops(g, fixed, x, d, e);
      assert d in g[x].Keys && d in g[e].Keys;
    } else {
      FlapAway(g, fixed, x, d, e, a);
    }
  }

  lemma FlapPendants(g: Adjacency, h: Adjacency, fixed: set<Point>, x: Point, d: Point, e: Point, a: Point)
    requires Flap(g, fixed, x, d, e) && Folded(g, h, x, d, e) && a in fixed && a in g
    ensures a in h && e !in Pendants(g, fixed, a)
    ensures Pendants(h, fixed, a) == Pendants(g, fixed, a) + if a == d then {e} else {}
  {
    assert |g[x].Keys| == 2 && |g[e].Keys| == 2 && |h[e].Keys| == 1;
    assert |g[x]| == |g[x].Keys| && |g[e]| == |g[e].Keys| && |h[e]| == |h[e].Keys|;
    forall n
      ensures n in Pendants(h, fixed, a) <==> n in Pendants(g, fixed, a) || (a == d && n == e)
    {
      FlapPendant(g, h, fixed, x, d, e, a, n);
    }
  }

  lemma FlapPendant(g: Adjacency, h: Adjacency, fixed: set<Point>, x: Point, d: Point, e: Point, a: Point, n: Point)
    requires Flap(g, fixed, x, d, e) && Folded(g, h, x, d, e) && a in fixed && a in g
    requires |g[x]| == 2 && |g[e]| == 2 && |h[e]| == 1
    ensures a in h
    ensures n in Pendants(h, fixed, a) <==> n in Pendants(g, fixed, a) || (a == d && n == e)
  {
    if a == d {
      assert d in g[e].Keys && e in g[d];
    } else {
      FlapAway(g, fixed, x, d, e, a);
    }
    assert n in h && n != e && n !in fixed ==> h[n] == g[n];
  }

  lemma FlapArms(g: Adjacency, h: Adjacency, fixed: set<Point>, x: Point, d: Point, e: Point, a: Point)
    requires Flap(g, fixed, x, d, e) && Folded(g, h, x, d, e) && Simple(h) && a in fixed && a in g
    ensures a in h && Arms(h, fixed, a) == Arms(g, fixed, a)
  {
    assert OtherEnds(h, fixed, a) == OtherEnds(g, fixed, a) by { FlapEnds(g, h, fixed, x, d, e, a); }
    FlapLoopSize(g, h, fixed, x, d, e, a);
    FlapPendantSize(g, h, fixed, x, d, e, a);
  }

  lemma FlapLoopSize(g: Adjacency, h: Adjacency, fixed: set<Point>, x: Point, d: Point, e: Point, a: Point)
    requires Flap(g, fixed, x, d, e) && Folded(g, h, x, d, e) && Simple(h) && a in fixed && a in g
    ensures a in h
    ensures |LoopStarts(h, fixed, a)| == |LoopStarts(g, fixed, a)| - if a == d then 2 else 0
  {
    FlapLoopStarts(g, h, fixed, x, d, e, a);
    var loops := LoopStarts(g, fixed, a);
    if a == d {
      WithoutTwo(loops, x, e);
    } else {
      assert loops - {x, e} == loops;
    }
  }

  lemma FlapPendantSize(g: Adjacency, h: Adjacency, fixed: set<Point>, x: Point, d: Point, e: Point, a: Point)
    requires Flap(g, fixed, x, d, e) && Folded(g, h, x, d, e) && a in fixed && a in g
    ensures a in h
    ensures |Pendants(h, fixed, a)| == |Pendants(g, fixed, a)| + if a == d then 1 else 0
  {
    FlapPendants(g, h, fixed, x, d, e, a);
  }

  lemma WithoutTwo<T>(s: set<T>, x: T, y: T)
    requires x in s && y in s && x != y
    ensures |s - {x, y}| == |s| - 2
  {
    assert s - {x, y} == s - {x} - {y};
  }

  lemma NoTailAtFlap(g: Adjacency, h: Adjacency, fixed: set<Point>, x: Point, d: Point, e: Point, n: Point)
    requires Flap(g, fixed, x, d, e) && Folded(g, h, x, d, e) && n in h && n in g && NoTail(g, fixed, n)
    ensures NoTail(h, fixed, n)
  {
    if n == e {
      assert forall m | m in h[e] :: m in h[e].Keys;
    } else if n != d {
      FlapAway(g, fixed, x, d, e, n);
      assert h[n] == g[n];
    }
  }

  lemma ArmsAtFlap(g: Adjacency, fixed: set<Point>, x: Point, u: Point, v: Point, d: Point, e: Point)
    requires Step(g, fixed, x, u, v) && Tame(g, fixed) && v in g[u] && IsPair(d, e, u, v) && d in fixed && e !in fixed
    ensures SameArms(g, Contract(g, x, u, v), fixed)
  {
    var h := Contract(g, x, u, v);
    StepIsFlap(g, fixed, x, u, v, d, e);
    StepFolds(g, fixed, x, u, v, d, e);
    ContractThin(g, fixed, x, u, v);
    forall n | n in h
      ensures NoTail(h, fixed, n)
    {
      assert n in g && NoTail(g, fixed, n);
      NoTailAtFlap(g, h, fixed, x, d, e, n);
    }
    forall a | a in fixed && a in g && a in h
      ensures Arms(h, fixed, a) == Arms(g, fixed, a)
    {
      FlapArms(g, h, fixed, x, d, e, a);
    }
  }

  // no neighbour fixed: a ring without ends

  lemma ArmsAtRing(g: Adjacency, fixed: set<Point>, x: Point, u: Point, v: Point)
    requires Step(g, fixed, x, u, v) && Tame(g, fixed) && v in g[u] && u !in fixed && v !in fixed
    ensures SameArms(g, Contract(g, x, u, v), fixed)
  {
    var h := Contract(g, x, u, v);
    RingTame(g, fixed, x, u, v);
    forall a | a in fixed && a in g && a in h
      ensures Arms(h, fixed, a) == Arms(g, fixed, a)
    {
      RingEnds(g, fixed, x, u, v, a);
      RingLoops(g, fixed, x, u, v, a);
      RingPendants(g, fixed, x, u, v, a);
    }
  }

  lemma RingLeads(g: Adjacency, h: Adjacency, fixed: set<Point>, ring: set<Point>, a: Point, n: Point, b: Point)
    requires Walled(g, h, ring, {}) && fixed !! ring && Leads(g, fixed, a, n, b)
    ensures Leads(h, fixed, a, n, b)
  {
    var p :| ChainBy(g, fixed, a, n, b, p);
    OutsideChain(g, h, ring, fixed, p);
    assert ChainBy(h, fixed, a, n, b, p);
  }

  lemma RingSame(g: Adjacency, fixed: set<Point>, x: Point, u: Point, v: Point, a: Point, n: Point, b: Point)
    requires Step(g, fixed, x, u, v) && Thin(g, fixed) && v in g[u] && u !in fixed && v !in fixed
    ensures Leads(g, fixed, a, n, b) <==> Leads(Contract(g, x, u, v), fixed, a, n, b)
  {
    var h, ring := Contract(g, x, u, v), {x, u, v};
    NothingLeadsOut(g, fixed, x, u, v);
    if Leads(g, fixed, a, n, b) {
      RingLeads(g, h, fixed, ring, a, n, b);
    }
    if Leads(h, fixed, a, n, b) {
      RingLeads(h, g, fixed, ring, a, n, b);
    }
  }

  lemma RingEnds(g: Adjacency, fixed: set<Point>, x: Point, u: Point, v: Point, a: Point)
    requires Step(g, fixed, x, u, v) && Thin(g, fixed) && v in g[u] && u !in fixed && v !in fixed
    ensures OtherEnds(Contract(g, x, u, v), fixed, a) == OtherEnds(g, fixed, a)
  {
    forall b
      ensures Joins(g, fixed, a, b) <==> Joins(Contract(g, x, u, v), fixed, a, b)
    {
      if n :| Leads(g, fixed, a, n, b) {
        RingSame(g, fixed, x, u, v, a, n, b);
      }
      if n :| Leads(Contract(g, x, u, v), fixed, a, n, b) {
        RingSame(g, fixed, x, u, v, a, n, b);
      }
    }
  }

  lemma RingLoops(g: Adjacency, fixed: set<Point>, x: Point, u: Point, v: Point, a: Point)
    requires Step(g, fixed, x, u, v) && Thin(g, fixed) && v in g[u] && u !in fixed && v !in fixed
    requires a in fixed && a in g
    ensures a in Contract(g, x, u, v)
    ensures LoopStarts(Contract(g, x, u, v), fixed, a) == LoopStarts(g, fixed, a)
  {
    assert a in Contract(g, x, u, v) && Contract(g, x, u, v)[a] == g[a] by { ContractEntries(g, x, u, v); }
    forall n
      ensures Leads(g, fixed, a, n, a) <==> Leads(Contract(g, x, u, v), fixed, a, n, a)
    {
      RingSame(g, fixed, x, u, v, a, n, a);
    }
  }

  lemma RingPendants(g: Adjacency, fixed: set<Point>, x: Point, u: Point, v: Point, a: Point)
    requires Step(g, fixed, x, u, v) && Thin(g, fixed) && v in g[u] && u !in fixed && v !in fixed
    requires a in fixed && a in g
    ensures a in Contract(g, x, u, v)
    ensures Pendants(Contract(g, x, u, v), fixed, a) == Pendants(g, fixed, a)
  {
    var h := Contract(g, x, u, v);
    assert a in h && h[a] == g[a] && h.Keys == g.Keys - {x} by { ContractEntries(g, x, u, v); }
    NotIntoTriangle(g, x, u, v, a);
    forall n | n in g[a].Keys
      ensures n in h && h[n] == g[n]
    {
      assert n !in {x, u, v} && n in g;
      ContractEntries(g, x, u, v);
    }
  }

  lemma RingTame(g: Adjacency, fixed: set<Point>, x: Point, u: Point, v: Point)
    requires Step(g, fixed, x, u, v) && Tame(g, fixed) && v in g[u] && u !in fixed && v !in fixed
    ensures Tame(Contract(g, x, u, v), fixed)
  {
    var h := Contract(g, x, u, v);
    ContractThin(g, fixed, x, u, v);
    forall n | n in h
      ensures NoTail(h, fixed, n)
    {
      forall m | n !in fixed && |h[n]| == 1 && m in h[n]
        ensures m in h && (m in fixed || |h[m]| != 2)
      {
        RingTail(g, fixed, x, u, v, n, m);
      }
    }
  }

  lemma RingTail(g: Adjacency, fixed: set<Point>, x: Point, u: Point, v: Point, n: Point, m: Point)
    requires Step(g, fixed, x, u, v) && Tame(g, fixed) && v in g[u] && u !in fixed && v !in fixed
    requires n in Contract(g, x, u, v) && n !in fixed && |Contract(g, x, u, v)[n]| == 1
    requires m in Contract(g, x, u, v)[n]
    ensures m in Contract(g, x, u, v) && (m in fixed || |Contract(g, x, u, v)[m]| != 2)
  {
    var h := Contract(g, x, u, v);
    ContractSimple(g, x, u, v);
    assert h.Keys == g.Keys - {x} by { ContractEntries(g, x, u, v); }
    TriangleEdges(g, x, u, v, n);
    assert m in h && m in g[n].Keys && m != x;
    TriangleEdges(g, x, u, v, m);
    if n != u && n != v {
      NotIntoTriangle(g, x, u, v, n);
      assert NoTail(g, fixed, n);
    } else {
      OnlyNeighbors(g, n, x, Across(n, u, v));
    }
  }

  // ----- runs that spare the fixed vertices

  lemma ArmsStep(g: Adjacency, fixed: set<Point>, x: Point, u: Point, v: Point)
    requires Step(g, fixed, x, u, v) && Tame(g, fixed)
    ensures SameArms(g, Contract(g, x, u, v), fixed)
  {
    if v !in g[u] {
      ArmsAcross(g, fixed, x, u, v);
    } else if u in fixed && v in fixed {
      ArmsAtDoors(g, fixed, x, u, v);
    } else if u in fixed {
      ArmsAtFlap(g, fixed, x, u, v, u, v);
    } else if v in fixed {
      ArmsAtFlap(g, fixed, x, u, v, v, u);
    } else {
      ArmsAtRing(g, fixed, x, u, v);
    }
  }

  ghost predicate Spares(run: Run, fixed: set<Point>) {
    run.Then? ==> run.x !in fixed && Spares(run.prev, fixed)
  }

  /** A run that contracts none of the endpoints and junctions changes none of their numbers of arms. */
  lemma {:induction false} SparingKeepsArms(g: Adjacency, run: Run)
    requires Simple(g) && ValidRun(g, run) && Spares(run, Fixed(g))
    ensures SameArms(g, After(g, run), Fixed(g))
  {
    if run.Start? {
    } else {
      SparingKeepsArms(g, run.prev);
      var h := After(g, run.prev);
      ArmsStep(h, Fixed(g), run.x, run.u, run.v);
      assert Fixed(g) <= h.Keys && Fixed(g) <= After(g, run).Keys;
    }
  }

  // ----- a graph in which only fixed vertices have degree 2

  ghost predicate Settled(g: Adjacency, fixed: set<Point>) {
    Thin(g, fixed) && forall n | n in g && n !in fixed :: |g[n]| != 2
  }

  lemma SettledTrail(g: Adjacency, fixed: set<Point>, p: seq<Point>)
    requires Settled(g, fixed) && Trail(g, fixed, p)
    ensures |p| == 2 && p[0] != p[1] && p[1] in fixed
  {
    if |p| > 2 {
      TrailMiddle(g, fixed, p);
      AtLeastTwo(g, p[1], p[0], p[2]);
    }
  }

  lemma SettledLeads(g: Adjacency, fixed: set<Point>, a: Point, n: Point, b: Point)
    requires Settled(g, fixed) && a in fixed
    ensures Leads(g, fixed, a, n, b) <==> n == b && b in g[a] && b in fixed
  {
    if p :| ChainBy(g, fixed, a, n, b, p) {
      SettledTrail(g, fixed, p);
    }
    if n == b && b in g[a] && b in fixed {
      LeadsByEdge(g, fixed, a, b);
    }
  }

  /** There the number of arms is the degree. */
  lemma SettledArms(g: Adjacency, fixed: set<Point>, a: Point)
    requires Settled(g, fixed) && a in fixed
    ensures a in g && Arms(g, fixed, a) == 2 * |g[a]|
  {
    var ends, loops, pendants := OtherEnds(g, fixed, a), LoopStarts(g, fixed, a), Pendants(g, fixed, a);
    assert loops == {} by {
      forall n
        ensures n !in loops
      {
        SettledLeads(g, fixed, a, n, a);
      }
    }
    forall b
      ensures b in ends <==> b in g[a].Keys && b in fixed
    {
      SettledEnd(g, fixed, a, b);
    }
    forall n
      ensures n in pendants <==> n in g[a].Keys && n !in fixed
    {
      SettledPendant(g, fixed, a, n);
    }
    assert g[a].Keys == ends + pendants && ends !! pendants;
    assert |g[a]| == |g[a].Keys|;
  }

  lemma SettledEnd(g: Adjacency, fixed: set<Point>, a: Point, b: Point)
    requires Settled(g, fixed) && a in fixed
    ensures b in OtherEnds(g, fixed, a) <==> b in g[a].Keys && b in fixed
  {
    if n :| Leads(g, fixed, a, n, b) {
      SettledLeads(g, fixed, a, n, b);
    }
    SettledLeads(g, fixed, a, b, b);
    assert b in g[a] && b in fixed ==> Joins(g, fixed, a, b);
  }

  lemma SettledPendant(g: Adjacency, fixed: set<Point>, a: Point, n: Point)
    requires Settled(g, fixed) && a in fixed
    ensures n in Pendants(g, fixed, a) <==> n in g[a].Keys && n !in fixed
  {
    if n in g[a].Keys && n !in fixed {
      assert n in g && a in g[n].Keys;
      SubsetSize({a}, g[n].Keys);
      assert |g[n]| == |g[n].Keys|;
    }
  }

  // ----- the condition on the input

  /** Exactly two of these leave a: other ends of chains, and closed chains, each counted by its two first steps. */
  ghost predicate TwoArms(g: Adjacency, a: Point)
    requires a in g
  {
    2 * |OtherEnds(g, Fixed(g), a)| + |LoopStarts(g, Fixed(g), a)| == 4
  }

  lemma NoPendantsAtFirst(g: Adjacency, a: Point)
    requires Simple(g) && a in g
    ensures Pendants(g, Fixed(g), a) == {} && Arms(g, Fixed(g), a) == 4 <==> TwoArms(g, a)
  {
    assert forall n | n in g && n !in Fixed(g) :: |g[n]| == 2;
    assert Pendants(g, Fixed(g), a) == {};
  }

  /** When a run has contracted all it can without touching endpoints and junctions, those of degree 2 are exactly
      those that have two arms in the input. */
  lemma DegreeTwoIsTwoArms(g: Adjacency, run: Run, a: Point)
    requires Simple(g) && ValidRun(g, run) && Spares(run, Fixed(g)) && Settled(After(g, run), Fixed(g))
    requires a in Fixed(g)
    ensures a in After(g, run) && (|After(g, run)[a]| == 2 <==> TwoArms(g, a))
  {
    SparingKeepsArms(g, run);
    SettledArms(After(g, run), Fixed(g), a);
    NoPendantsAtFirst(g, a);
  }
}
