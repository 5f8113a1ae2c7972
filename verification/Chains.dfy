/** Which endpoints and junctions keep their degree under contraction (flowchart/flowchart/lines.py). */
module Chains {
  import opened Basics
  import opened Graphs
  import opened Contraction

  // ----- when endpoints and junctions keep their degree

  /** Every vertex that was not of degree 2 is still there with its old degree. */
  ghost predicate EndsAndJunctionsKept(g: Adjacency, h: Adjacency) {
    forall a | a in g && |g[a]| != 2 :: KeptAt(g, h, a)
  }

  ghost predicate KeptAt(g: Adjacency, h: Adjacency, a: Point)
    requires a in g
  {
    a in h && |h[a]| == |g[a]|
  }

  /** What the last step does to a vertex that was not of degree 2: it loses a degree exactly if it is an end of the
      new edge and that edge was there already. */
  lemma KeptStep(g: Adjacency, run: Run, a: Point)
    requires Simple(g) && ValidRun(g, run) && run.Then? && a in g && |g[a]| != 2
    ensures KeptAt(g, After(g, run.prev), a) ==>
      (KeptAt(g, After(g, run), a) <==> !((a == run.u || a == run.v) && run.v in After(g, run.prev)[run.u]))
    ensures !KeptAt(g, After(g, run.prev), a) ==> !KeptAt(g, After(g, run), a)
  {
    var h := After(g, run.prev);
    RunKeepsDistances(g, run.prev);
    RunDegrees(g, run.prev, a);
    ContractEntries(h, run.x, run.u, run.v);
    assert |h[run.x]| == 2 by { assert |h[run.x]| == |h[run.x].Keys|; }
    if a in h && a != run.x {
      ContractDegree(h, run.x, run.u, run.v, a);
    }
  }

  // ----- chains of vertices of degree 2

  /** p goes on without turning back through vertices outside `fixed` and stops at the first vertex inside. */
  ghost predicate Trail(g: Adjacency, fixed: set<Point>, p: seq<Point>) {
    && |p| >= 2 && p[0] in g && p[1] in g[p[0]]
    && (if |p| == 2 then p[1] in fixed else p[1] !in fixed && p[2] != p[0] && Trail(g, fixed, p[1..]))
  }

  lemma TrailMiddle(g: Adjacency, fixed: set<Point>, p: seq<Point>)
    requires Simple(g) && Trail(g, fixed, p) && |p| > 2
    ensures p[1] in g && p[0] in g[p[1]] && p[2] in g[p[1]] && p[0] != p[2] && p[1] !in fixed
    ensures Trail(g, fixed, p[1..]) && p[1..][0] == p[1] && p[1..][1] == p[2]
  {
    assert Trail(g, fixed, p[1..]) && p[1..][1] == p[2];
  }

  /** A chain between two vertices of `fixed`; an edge between them is a chain without inner vertices. */
  ghost predicate Chain(g: Adjacency, fixed: set<Point>, p: seq<Point>) {
    Trail(g, fixed, p) && p[0] in fixed
  }

  /** Two different chains between the same two ends. */
  ghost predicate Parallel(g: Adjacency, fixed: set<Point>, p: seq<Point>, q: seq<Point>) {
    Chain(g, fixed, p) && Chain(g, fixed, q) && p != q && p[0] == q[0] && p[|p| - 1] == q[|q| - 1]
  }

  /** A chain that closes on a single vertex. */
  ghost predicate Loop(g: Adjacency, fixed: set<Point>, p: seq<Point>) {
    Chain(g, fixed, p) && p[0] == p[|p| - 1]
  }

  ghost predicate Collapsible(g: Adjacency, fixed: set<Point>) {
    (exists p, q :: Parallel(g, fixed, p, q)) || (exists p :: Loop(g, fixed, p))
  }

  /** Endpoints and junctions: what is not of degree 2. */
  ghost function Fixed(g: Adjacency): set<Point> {
    set a | a in g && |g[a]| != 2
  }

  /** The fixed vertices are there and all others have at most two neighbours. */
  ghost predicate Thin(g: Adjacency, fixed: set<Point>) {
    Simple(g) && fixed <= g.Keys && forall a | a in g && a !in fixed :: |g[a]| <= 2
  }

  function Erase(p: seq<Point>, x: Point): seq<Point> {
    if p == [] then [] else (if p[0] == x then [] else [p[0]]) + Erase(p[1..], x)
  }

  /** x is put between u and v wherever they follow each other. */
  function Insert(p: seq<Point>, x: Point, u: Point, v: Point): seq<Point> {
    if |p| < 2 then p
    else if (p[0] == u && p[1] == v) || (p[0] == v && p[1] == u) then [p[0], x] + Insert(p[1..], x, u, v)
    else [p[0]] + Insert(p[1..], x, u, v)
  }

  /** The situation of one contraction step: x, outside `fixed`, lies between u and v. */
  ghost predicate Step(g: Adjacency, fixed: set<Point>, x: Point, u: Point, v: Point) {
    Simple(g) && Between(g, x, u, v) && u in g && v in g && x !in fixed
  }

  /** e is the trail p without x: a trail of h between the same ends, from which p can be found again. */
  ghost predicate Erased(h: Adjacency, fixed: set<Point>, x: Point, u: Point, v: Point, p: seq<Point>, e: seq<Point>) {
    && |p| >= 2 && |e| >= 2 && (p[1] == x ==> |p| > 2) && Trail(h, fixed, e)
    && e[0] == p[0] && e[|e| - 1] == p[|p| - 1] && e[1] == (if p[1] == x then p[2] else p[1])
    && Insert(e, x, u, v) == p
  }

  /** Unless u and v are joined already, contracting x shortens a trail that does not begin at x, and nothing else. */
  lemma {:induction false} EraseTrail(g: Adjacency, fixed: set<Point>, x: Point, u: Point, v: Point, p: seq<Point>)
    requires Step(g, fixed, x, u, v) && v !in g[u] && Trail(g, fixed, p) && p[0] != x
    ensures Erased(Contract(g, x, u, v), fixed, x, u, v, p, Erase(p, x))
    decreases |p|
  {
    if p[1] == x {
      EraseAtX(g, fixed, x, u, v, p);
      if |p| > 3 {
        EraseTrail(g, fixed, x, u, v, p[2..]);
      }
      EraseOver(g, fixed, x, u, v, p);
    } else {
      if |p| > 2 {
        EraseTrail(g, fixed, x, u, v, p[1..]);
      }
      EraseAlong(g, fixed, x, u, v, p);
    }
  }

  lemma EraseOver(g: Adjacency, fixed: set<Point>, x: Point, u: Point, v: Point, p: seq<Point>)
    requires Step(g, fixed, x, u, v) && v !in g[u] && Trail(g, fixed, p) && p[0] != x && p[1] == x && |p| > 2
    requires |p| > 3 ==> Erased(Contract(g, x, u, v), fixed, x, u, v, p[2..], Erase(p[2..], x))
    ensures Erased(Contract(g, x, u, v), fixed, x, u, v, p, Erase(p, x))
  {
    var h := Contract(g, x, u, v);
    EraseAtX(g, fixed, x, u, v, p);
    assert p[0] in h && p[2] in h[p[0]] by { ContractEdge(g, x, u, v, p[0], p[2]); }
    var tail := p[2..];
    assert tail[0] == p[2] && (|tail| > 1 ==> tail[1] == p[3]);
    assert p == [p[0], x] + tail;
    ErasedOver(h, fixed, x, u, v, p[0], tail);
  }

  lemma ErasedOver(h: Adjacency, fixed: set<Point>, x: Point, u: Point, v: Point, a: Point, tail: seq<Point>)
    requires a != x && tail != [] && tail[0] != x && IsPair(a, tail[0], u, v) && a in h && tail[0] in h[a]
    requires |tail| == 1 ==> tail[0] in fixed
    requires |tail| > 1 ==> tail[0] !in fixed && tail[1] != a && tail[1] != x
    requires |tail| > 1 ==> Erased(h, fixed, x, u, v, tail, Erase(tail, x))
    ensures Erased(h, fixed, x, u, v, [a, x] + tail, [a] + Erase(tail, x))
  {
    var p, e, rest := [a, x] + tail, [a] + Erase(tail, x), Erase(tail, x);
    if |tail| == 1 {
      EraseOne(tail[0], x);
      assert tail == [tail[0]];
    }
    assert Insert(e, x, u, v) == p by { InsertCons(a, rest, x, u, v); }
    assert Trail(h, fixed, e) by { PrependTrail(h, fixed, a, rest); }
    assert p[|p| - 1] == tail[|tail| - 1] && e[|e| - 1] == rest[|rest| - 1];
  }

  lemma EraseAlong(g: Adjacency, fixed: set<Point>, x: Point, u: Point, v: Point, p: seq<Point>)
    requires Step(g, fixed, x, u, v) && v !in g[u] && Trail(g, fixed, p) && p[0] != x && p[1] != x
    requires |p| > 2 ==> Erased(Contract(g, x, u, v), fixed, x, u, v, p[1..], Erase(p[1..], x))
    ensures Erased(Contract(g, x, u, v), fixed, x, u, v, p, Erase(p, x))
  {
    var h := Contract(g, x, u, v);
    assert p[0] in h && p[1] in h[p[0]] && !IsPair(p[0], p[1], u, v) by {
      ContractEdge(g, x, u, v, p[0], p[1]);
    }
    if |p| > 2 && p[2] == x {
      EraseAtX(g, fixed, x, u, v, p[1..]);
      assert p[1..][2] == p[3] && p[3] != p[0];
    }
    ErasedAlong(h, fixed, x, u, v, p[0], p[1..]);
    assert p == [p[0]] + p[1..];
  }

  lemma ErasedAlong(h: Adjacency, fixed: set<Point>, x: Point, u: Point, v: Point, a: Point, tail: seq<Point>)
    requires a != x && tail != [] && tail[0] != x && !IsPair(a, tail[0], u, v) && a in h && tail[0] in h[a]
    requires |tail| == 1 ==> tail[0] in fixed
    requires |tail| > 1 ==> Erased(h, fixed, x, u, v, tail, Erase(tail, x))
    requires |tail| > 1 ==> tail[0] !in fixed && a != if tail[1] == x then tail[2] else tail[1]
    ensures Erased(h, fixed, x, u, v, [a] + tail, [a] + Erase(tail, x))
  {
    var rest := Erase(tail, x);
    if |tail| == 1 {
      EraseOne(tail[0], x);
      assert tail == [tail[0]];
    }
    var p, e := [a] + tail, [a] + rest;
    assert rest != [] && rest[0] == tail[0] && p[1] == tail[0] && e[1] == rest[0];
    assert p[|p| - 1] == tail[|tail| - 1] && e[|e| - 1] == rest[|rest| - 1];
    assert Insert(e, x, u, v) == p by { InsertCons(a, rest, x, u, v); }
    assert Trail(h, fixed, e) by { PrependTrail(h, fixed, a, rest); }
  }

  lemma EraseOne(a: Point, x: Point)
    ensures Erase([a], x) == if a == x then [] else [a]
  {
    assert [a][1..] == [];
  }

  lemma EraseCons(a: Point, rest: seq<Point>, x: Point)
    ensures Erase([a] + rest, x) == (if a == x then [] else [a]) + Erase(rest, x)
  {
    assert ([a] + rest)[1..] == rest;
  }

  lemma InsertCons(a: Point, rest: seq<Point>, x: Point, u: Point, v: Point)
    requires rest != []
    ensures Insert([a] + rest, x, u, v) == (if IsPair(a, rest[0], u, v) then [a, x] else [a]) + Insert(rest, x, u, v)
  {
    assert ([a] + rest)[1..] == rest;
  }

  lemma PrependTrail(g: Adjacency, fixed: set<Point>, a: Point, rest: seq<Point>)
    requires a in g && rest != [] && rest[0] in g[a]
    requires if |rest| == 1 then rest[0] in fixed
             else rest[0] !in fixed && rest[1] != a && Trail(g, fixed, rest)
    ensures Trail(g, fixed, [a] + rest)
  {
    assert ([a] + rest)[1..] == rest;
  }

  /** A trail runs over x from u to v or back, and goes on to neither of them. */
  lemma EraseAtX(g: Adjacency, fixed: set<Point>, x: Point, u: Point, v: Point, p: seq<Point>)
    requires Step(g, fixed, x, u, v) && v !in g[u] && Trail(g, fixed, p) && p[0] != x && p[1] == x
    ensures |p| > 2 && IsPair(p[0], p[2], u, v) && p[2] != x
    ensures |p| > 3 ==> Trail(g, fixed, p[2..]) && p[3] != x && p[3] != p[0] && p[2] !in fixed
    ensures |p| == 3 ==> p[2] in fixed
    ensures Erase(p, x) == [p[0]] + Erase(p[2..], x)
  {
    assert p[1..][1..] == p[2..];
    assert Trail(g, fixed, p[1..]);
    assert p[0] in g[x] && p[2] in g[x];
    if |p| > 3 {
      assert Trail(g, fixed, p[2..]);
      assert p[3] in g[p[2]];
    }
  }

  /** p is the trail e with x put in between u and v: a trail of g between the same ends, from which e can be found
      again. */
  ghost predicate Inserted(g: Adjacency, fixed: set<Point>, x: Point, u: Point, v: Point, e: seq<Point>,
                           p: seq<Point>) {
    && |e| >= 2 && |p| >= 2 && Trail(g, fixed, p)
    && p[0] == e[0] && p[|p| - 1] == e[|e| - 1] && p[1] == (if IsPair(e[0], e[1], u, v) then x else e[1])
    && Erase(p, x) == e
  }

  lemma {:induction false} InsertTrail(g: Adjacency, fixed: set<Point>, x: Point, u: Point, v: Point, e: seq<Point>)
    requires Step(g, fixed, x, u, v) && v !in g[u] && Trail(Contract(g, x, u, v), fixed, e)
    ensures Inserted(g, fixed, x, u, v, e, Insert(e, x, u, v))
    decreases |e|
  {
    if |e| > 2 {
      InsertTrail(g, fixed, x, u, v, e[1..]);
    }
    InsertFirst(g, fixed, x, u, v, e);
  }

  lemma InsertFirst(g: Adjacency, fixed: set<Point>, x: Point, u: Point, v: Point, e: seq<Point>)
    requires Step(g, fixed, x, u, v) && v !in g[u] && Trail(Contract(g, x, u, v), fixed, e)
    requires |e| > 2 ==> Inserted(g, fixed, x, u, v, e[1..], Insert(e[1..], x, u, v))
    ensures Inserted(g, fixed, x, u, v, e, Insert(e, x, u, v))
  {
    InsertEnds(g, fixed, x, u, v, e);
    var a, tail := e[0], e[1..];
    assert e == [a] + tail && tail[0] == e[1] && (|tail| > 1 ==> tail[1] == e[2]);
    var rest := Insert(tail, x, u, v);
    ResumesAfter(g, fixed, x, u, v, tail);
    InsertCons(a, tail, x, u, v);
    if IsPair(a, tail[0], u, v) {
      InsertedOver(g, fixed, x, u, v, a, tail, rest);
    } else {
      InsertedAlong(g, fixed, x, u, v, a, tail, rest);
    }
  }

  /** What x or a vertex in front of `tail` needs to know about the rest of the longer trail. */
  ghost predicate Resumes(g: Adjacency, fixed: set<Point>, x: Point, tail: seq<Point>, rest: seq<Point>) {
    && tail != [] && rest != [] && rest[0] == tail[0] && rest[|rest| - 1] == tail[|tail| - 1] && Erase(rest, x) == tail
    && if |rest| == 1 then rest[0] in fixed else rest[0] !in fixed && Trail(g, fixed, rest)
  }

  lemma ResumesAfter(g: Adjacency, fixed: set<Point>, x: Point, u: Point, v: Point, tail: seq<Point>)
    requires tail != [] && tail[0] != x
    requires if |tail| == 1 then tail[0] in fixed
             else tail[0] !in fixed && Inserted(g, fixed, x, u, v, tail, Insert(tail, x, u, v))
    ensures Resumes(g, fixed, x, tail, Insert(tail, x, u, v))
    ensures |tail| > 1 <==> |Insert(tail, x, u, v)| > 1
    ensures |tail| > 1 ==> Insert(tail, x, u, v)[1] == if IsPair(tail[0], tail[1], u, v) then x else tail[1]
  {
    if |tail| == 1 {
      EraseOne(tail[0], x);
      assert tail == [tail[0]];
    }
  }

  lemma InsertedOver(g: Adjacency, fixed: set<Point>, x: Point, u: Point, v: Point, a: Point, tail: seq<Point>,
                     rest: seq<Point>)
    requires a in g && x in g && Resumes(g, fixed, x, tail, rest) && a != x && rest[0] != a && x !in fixed
    requires IsPair(a, tail[0], u, v) && x in g[a] && rest[0] in g[x] && (|rest| > 1 ==> rest[1] != x)
    ensures Inserted(g, fixed, x, u, v, [a] + tail, [a, x] + rest)
  {
    var e, p := [a] + tail, [a, x] + rest;
    assert e[1] == tail[0] && e[|e| - 1] == tail[|tail| - 1] && p[|p| - 1] == rest[|rest| - 1];
    assert Erase(p, x) == e by { EraseTwo(a, rest, x); }
    assert Trail(g, fixed, p) by { PrependTwo(g, fixed, a, x, rest); }
  }

  lemma PrependTwo(g: Adjacency, fixed: set<Point>, a: Point, x: Point, rest: seq<Point>)
    requires a in g && x in g && x in g[a] && rest != [] && rest[0] in g[x] && x !in fixed && rest[0] != a
    requires if |rest| == 1 then rest[0] in fixed
             else rest[0] !in fixed && rest[1] != x && Trail(g, fixed, rest)
    ensures Trail(g, fixed, [a, x] + rest)
  {
    PrependTrail(g, fixed, x, rest);
    PrependTrail(g, fixed, a, [x] + rest);
    assert [a] + ([x] + rest) == [a, x] + rest;
  }

  lemma EraseTwo(a: Point, rest: seq<Point>, x: Point)
    requires a != x
    ensures Erase([a, x] + rest, x) == [a] + Erase(rest, x)
  {
    EraseCons(x, rest, x);
    EraseCons(a, [x] + rest, x);
    assert [a] + ([x] + rest) == [a, x] + rest;
  }

  lemma InsertedAlong(g: Adjacency, fixed: set<Point>, x: Point, u: Point, v: Point, a: Point, tail: seq<Point>,
                      rest: seq<Point>)
    requires a in g && Resumes(g, fixed, x, tail, rest) && a != x
    requires !IsPair(a, tail[0], u, v) && rest[0] in g[a] && (|rest| > 1 ==> rest[1] != a)
    ensures Inserted(g, fixed, x, u, v, [a] + tail, [a] + rest)
  {
    var e, p := [a] + tail, [a] + rest;
    assert e[1] == tail[0] && p[1] == rest[0];
    assert e[|e| - 1] == tail[|tail| - 1] && p[|p| - 1] == rest[|rest| - 1];
    assert Erase(p, x) == e by { EraseCons(a, rest, x); }
    assert Trail(g, fixed, p) by { PrependTrail(g, fixed, a, rest); }
  }

  lemma InsertEnds(g: Adjacency, fixed: set<Point>, x: Point, u: Point, v: Point, e: seq<Point>)
    requires Step(g, fixed, x, u, v) && v !in g[u] && Trail(Contract(g, x, u, v), fixed, e)
    ensures e[0] in g && e[0] != x && e[1] in g && e[1] != x && e[0] != e[1]
    ensures if IsPair(e[0], e[1], u, v) then x in g[e[0]] && e[1] in g[x] else e[1] in g[e[0]]
  {
    ContractEntries(g, x, u, v);
    ContractSimple(g, x, u, v);
    ContractEdge(g, x, u, v, e[0], e[1]);
    assert u in g[x].Keys && v in g[x].Keys;
  }

  /** Without a collapse, chains correspond one to one: those of g lose x, those of the contracted graph regain it. */
  lemma ChainsCorrespond(g: Adjacency, fixed: set<Point>, x: Point, u: Point, v: Point)
    requires Step(g, fixed, x, u, v) && v !in g[u]
    ensures forall p | Chain(g, fixed, p) ::
      Chain(Contract(g, x, u, v), fixed, Erase(p, x)) && Erased(Contract(g, x, u, v), fixed, x, u, v, p, Erase(p, x))
    ensures forall q | Chain(Contract(g, x, u, v), fixed, q) ::
      Chain(g, fixed, Insert(q, x, u, v)) && Inserted(g, fixed, x, u, v, q, Insert(q, x, u, v))
  {
    forall p | Chain(g, fixed, p)
      ensures Erased(Contract(g, x, u, v), fixed, x, u, v, p, Erase(p, x))
    {
      EraseTrail(g, fixed, x, u, v, p);
    }
    forall q | Chain(Contract(g, x, u, v), fixed, q)
      ensures Inserted(g, fixed, x, u, v, q, Insert(q, x, u, v))
    {
      InsertTrail(g, fixed, x, u, v, q);
    }
  }

  /** So colliding chains come and go together. */
  lemma StepKeepsChains(g: Adjacency, fixed: set<Point>, x: Point, u: Point, v: Point)
    requires Step(g, fixed, x, u, v) && v !in g[u]
    ensures Collapsible(g, fixed) <==> Collapsible(Contract(g, x, u, v), fixed)
  {
    if Collapsible(g, fixed) {
      StepErases(g, fixed, x, u, v);
    }
    if Collapsible(Contract(g, x, u, v), fixed) {
      StepInserts(g, fixed, x, u, v);
    }
  }

  lemma StepErases(g: Adjacency, fixed: set<Point>, x: Point, u: Point, v: Point)
    requires Step(g, fixed, x, u, v) && v !in g[u] && Collapsible(g, fixed)
    ensures Collapsible(Contract(g, x, u, v), fixed)
  {
    var h := Contract(g, x, u, v);
    if p, q :| Parallel(g, fixed, p, q) {
      EraseTrail(g, fixed, x, u, v, p);
      EraseTrail(g, fixed, x, u, v, q);
      assert Parallel(h, fixed, Erase(p, x), Erase(q, x));
    } else {
      var p :| Loop(g, fixed, p);
      EraseTrail(g, fixed, x, u, v, p);
      assert Loop(h, fixed, Erase(p, x));
    }
  }

  lemma StepInserts(g: Adjacency, fixed: set<Point>, x: Point, u: Point, v: Point)
    requires Step(g, fixed, x, u, v) && v !in g[u] && Collapsible(Contract(g, x, u, v), fixed)
    ensures Collapsible(g, fixed)
  {
    var h := Contract(g, x, u, v);
    if p, q :| Parallel(h, fixed, p, q) {
      InsertTrail(g, fixed, x, u, v, p);
      InsertTrail(g, fixed, x, u, v, q);
      assert Parallel(g, fixed, Insert(p, x, u, v), Insert(q, x, u, v));
    } else {
      var p :| Loop(h, fixed, p);
      InsertTrail(g, fixed, x, u, v, p);
      assert Loop(g, fixed, Insert(p, x, u, v));
    }
  }

  /** h has the edges of g outside `ring`, and from outside only the doors have edges into it. */
  ghost predicate Walled(g: Adjacency, h: Adjacency, ring: set<Point>, doors: set<Point>) {
    forall a {:trigger WalledAt(g, h, ring, doors, a)} | a !in ring && a in g :: WalledAt(g, h, ring, doors, a)
  }

  ghost predicate WalledAt(g: Adjacency, h: Adjacency, ring: set<Point>, doors: set<Point>, a: Point)
    requires a in g
  {
    a in h && g[a].Keys - ring <= h[a].Keys && (a !in doors ==> g[a].Keys !! ring)
  }

  /** A trail that does not begin in the ring, and does not enter it through a door at once, never does. */
  lemma {:induction false} WalledTrail(g: Adjacency, h: Adjacency, ring: set<Point>, doors: set<Point>,
                                       fixed: set<Point>, p: seq<Point>)
    requires Walled(g, h, ring, doors) && doors <= fixed && Trail(g, fixed, p)
    requires p[0] !in ring && p[1] !in ring
    ensures Trail(h, fixed, p)
    decreases |p|
  {
    assert WalledAt(g, h, ring, doors, p[0]);
    if |p| == 2 {
    } else {
      assert Trail(g, fixed, p[1..]) && p[1..][1] == p[2];
      assert p[1] in g && WalledAt(g, h, ring, doors, p[1]);
      WalledTrail(g, h, ring, doors, fixed, p[1..]);
    }
  }

  lemma OutsideKeepsChains(g: Adjacency, h: Adjacency, ring: set<Point>, fixed: set<Point>)
    requires Walled(g, h, ring, {}) && fixed !! ring && Collapsible(g, fixed)
    ensures Collapsible(h, fixed)
  {
    if p, q :| Parallel(g, fixed, p, q) {
      OutsideChain(g, h, ring, fixed, p);
      OutsideChain(g, h, ring, fixed, q);
      assert Parallel(h, fixed, p, q);
    } else {
      var p :| Loop(g, fixed, p);
      OutsideChain(g, h, ring, fixed, p);
      assert Loop(h, fixed, p);
    }
  }

  lemma OutsideChain(g: Adjacency, h: Adjacency, ring: set<Point>, fixed: set<Point>, p: seq<Point>)
    requires Walled(g, h, ring, {}) && fixed !! ring && Chain(g, fixed, p)
    ensures Chain(h, fixed, p)
  {
    assert p[0] !in ring && WalledAt(g, h, ring, {}, p[0]);
    assert p[1] in g[p[0]].Keys;
    WalledTrail(g, h, ring, {}, fixed, p);
  }

  /** In a triangle x, u, v none of whose corners is fixed, nothing leads out. */
  lemma RingKeepsChains(g: Adjacency, fixed: set<Point>, x: Point, u: Point, v: Point)
    requires Step(g, fixed, x, u, v) && Thin(g, fixed) && v in g[u] && u !in fixed && v !in fixed
    ensures Collapsible(g, fixed) <==> Collapsible(Contract(g, x, u, v), fixed)
  {
    var h, ring := Contract(g, x, u, v), {x, u, v};
    NothingLeadsOut(g, fixed, x, u, v);
    if Collapsible(g, fixed) {
      OutsideKeepsChains(g, h, ring, fixed);
    }
    if Collapsible(h, fixed) {
      OutsideKeepsChains(h, g, ring, fixed);
    }
  }

  lemma NothingLeadsOut(g: Adjacency, fixed: set<Point>, x: Point, u: Point, v: Point)
    requires Step(g, fixed, x, u, v) && Thin(g, fixed) && v in g[u] && u !in fixed && v !in fixed
    ensures Walled(g, Contract(g, x, u, v), {x, u, v}, {}) && Walled(Contract(g, x, u, v), g, {x, u, v}, {})
  {
    var h, ring := Contract(g, x, u, v), {x, u, v};
    assert h.Keys == g.Keys - {x} by { ContractEntries(g, x, u, v); }
    forall a | a !in ring && a in g
      ensures a in h && h[a] == g[a] && g[a].Keys !! ring
    {
      ContractEntries(g, x, u, v);
      NotIntoTriangle(g, x, u, v, a);
    }
  }

  lemma NotIntoTriangle(g: Adjacency, x: Point, u: Point, v: Point, a: Point)
    requires Simple(g) && Between(g, x, u, v) && u in g && v in g && v in g[u] && |g[u]| <= 2 && |g[v]| <= 2
    requires a in g && a !in {x, u, v}
    ensures g[a].Keys !! {x, u, v}
  {
    assert u in g[x].Keys && v in g[x].Keys;
    OnlyNeighbors(g, u, x, v);
    OnlyNeighbors(g, v, x, u);
    NotJoined(g, a, u);
    NotJoined(g, a, v);
    NotJoined(g, a, x);
  }

  lemma NotJoined(g: Adjacency, a: Point, b: Point)
    requires Simple(g) && a in g && b in g && a !in g[b].Keys
    ensures b !in g[a]
  {
  }

  lemma OnlyNeighbors(g: Adjacency, a: Point, b: Point, c: Point)
    requires a in g && |g[a]| <= 2 && b in g[a] && c in g[a] && b != c
    ensures g[a].Keys == {b, c}
  {
    SubsetSize({b, c}, g[a].Keys);
    assert |g[a]| == |g[a].Keys|;
    TwoElements(g[a].Keys, b, c);
  }

  /** In a triangle x, u, v with a fixed corner there are two chains between the same ends, or one closes. */
  lemma TriangleIsCollapsible(g: Adjacency, fixed: set<Point>, x: Point, u: Point, v: Point)
    requires Step(g, fixed, x, u, v) && v in g[u] && (u in fixed || v in fixed)
    ensures Collapsible(g, fixed)
  {
    assert u in g[x] && v in g[x] && u in g[v];
    if u in fixed && v in fixed {
      var p, q := [u, v], [u, x, v];
      assert q[1..] == [x, v] && Trail(g, fixed, [x, v]);
      assert Parallel(g, fixed, p, q);
    } else {
      var a, b := if u in fixed then u else v, if u in fixed then v else u;
      var p := [a, x, b, a];
      assert p[1..] == [x, b, a] && [x, b, a][1..] == [b, a];
      assert Trail(g, fixed, [b, a]);
      assert Trail(g, fixed, [x, b, a]);
      assert Loop(g, fixed, p);
    }
  }

  lemma AtLeastTwo(g: Adjacency, a: Point, b: Point, c: Point)
    requires a in g && b in g[a] && c in g[a] && b != c
    ensures |g[a]| >= 2
  {
    SubsetSize({b, c}, g[a].Keys);
    assert |g[a]| == |g[a].Keys|;
  }

  /** Without vertices of degree 2 every chain is a single edge. */
  lemma NormalFormHasNoChains(g: Adjacency, fixed: set<Point>)
    requires Thin(g, fixed) && NormalForm(g)
    ensures !Collapsible(g, fixed)
  {
    forall p | Trail(g, fixed, p)
      ensures |p| == 2 && p[0] != p[1]
    {
      NormalTrail(g, fixed, p);
    }
    assert forall p, q :: !Parallel(g, fixed, p, q);
  }

  lemma NormalTrail(g: Adjacency, fixed: set<Point>, p: seq<Point>)
    requires Thin(g, fixed) && NormalForm(g) && Trail(g, fixed, p)
    ensures |p| == 2 && p[0] != p[1]
  {
    if |p| > 2 {
      TrailMiddle(g, fixed, p);
      AtLeastTwo(g, p[1], p[0], p[2]);
    }
  }

  /** As long as endpoints and junctions keep their degrees, the chains between them come and go together. */
  lemma {:induction false} RunKeepsChains(g: Adjacency, run: Run)
    requires Simple(g) && ValidRun(g, run) && EndsAndJunctionsKept(g, After(g, run))
    ensures Thin(After(g, run), Fixed(g))
    ensures Collapsible(g, Fixed(g)) <==> Collapsible(After(g, run), Fixed(g))
  {
    RunIsThin(g, run);
    if run.Start? {
    } else {
      var h, fixed := After(g, run.prev), Fixed(g);
      KeptBefore(g, run);
      RunKeepsChains(g, run.prev);
      StepIsOutside(g, run);
      if run.v in h[run.u] {
        assert run.u !in fixed by { if run.u in fixed { KeptStep(g, run, run.u); } }
        assert run.v !in fixed by { if run.v in fixed { KeptStep(g, run, run.v); } }
        RingKeepsChains(h, fixed, run.x, run.u, run.v);
      } else {
        StepKeepsChains(h, fixed, run.x, run.u, run.v);
      }
    }
  }

  lemma RunIsThin(g: Adjacency, run: Run)
    requires Simple(g) && ValidRun(g, run) && EndsAndJunctionsKept(g, After(g, run))
    ensures Thin(After(g, run), Fixed(g))
  {
    RunKeepsDistances(g, run);
    forall a | a in After(g, run) && a !in Fixed(g)
      ensures |After(g, run)[a]| <= 2
    {
      RunDegrees(g, run, a);
    }
    assert forall a | a in Fixed(g) :: KeptAt(g, After(g, run), a);
  }

  lemma KeptBefore(g: Adjacency, run: Run)
    requires Simple(g) && ValidRun(g, run) && run.Then? && EndsAndJunctionsKept(g, After(g, run))
    ensures EndsAndJunctionsKept(g, After(g, run.prev))
  {
    forall a | a in g && |g[a]| != 2
      ensures KeptAt(g, After(g, run.prev), a)
    {
      KeptStep(g, run, a);
    }
  }

  lemma StepIsOutside(g: Adjacency, run: Run)
    requires Simple(g) && ValidRun(g, run) && run.Then? && EndsAndJunctionsKept(g, After(g, run.prev))
    ensures Step(After(g, run.prev), Fixed(g), run.x, run.u, run.v)
  {
    var h := After(g, run.prev);
    RunKeepsDistances(g, run.prev);
    assert |h[run.x]| == 2 by { assert |h[run.x]| == |h[run.x].Keys|; }
    assert run.x in Fixed(g) ==> KeptAt(g, h, run.x);
  }

  /** Without two chains between the same ends and without a closed one, every run keeps endpoints and junctions. */
  lemma {:induction false} KeptWithoutChains(g: Adjacency, run: Run)
    requires Simple(g) && ValidRun(g, run) && !Collapsible(g, Fixed(g))
    ensures EndsAndJunctionsKept(g, After(g, run))
  {
    if run.Start? {
    } else {
      KeptWithoutChains(g, run.prev);
      RunKeepsChains(g, run.prev);
      StepIsOutside(g, run);
      var h, fixed := After(g, run.prev), Fixed(g);
      if run.v in h[run.u] && (run.u in fixed || run.v in fixed) {
        TriangleIsCollapsible(h, fixed, run.x, run.u, run.v);
      }
      forall a | a in g && |g[a]| != 2
        ensures KeptAt(g, After(g, run), a)
      {
        KeptStep(g, run, a);
      }
    }
  }

  /** A complete contraction preserves endpoints and junctions, with their degrees, exactly if in the input no two
      chains join the same two of them and no chain closes on one of them. */
  lemma KeptExactlyWithoutChains(g: Adjacency, run: Run)
    requires Simple(g) && ValidRun(g, run) && NormalForm(After(g, run))
    ensures EndsAndJunctionsKept(g, After(g, run)) <==> !Collapsible(g, Fixed(g))
  {
    if EndsAndJunctionsKept(g, After(g, run)) {
      RunKeepsChains(g, run);
      NormalFormHasNoChains(After(g, run), Fixed(g));
    } else if !Collapsible(g, Fixed(g)) {
      KeptWithoutChains(g, run);
    }
  }

  predicate Distinct4(j: Point, a: Point, b: Point, c: Point) {
    j != a && j != b && j != c && a != b && a != c && b != c
  }

  /** A triangle j, a, b with a tail c at j, all weights 1. */
  function Lollipop(j: Point, a: Point, b: Point, c: Point): Adjacency {
    map[j := map[a := 1, b := 1, c := 1], a := map[j := 1, b := 1], b := map[j := 1, a := 1], c := map[j := 1]]
  }

  function LollipopHalf(j: Point, b: Point, c: Point): Adjacency {
    map[j := map[b := 1, c := 1], b := map[j := 1], c := map[j := 1]]
  }

  /** The junction of the lollipop, of degree 3, is contracted away: only b and c are left. */
  lemma JunctionCanVanish(j: Point, a: Point, b: Point, c: Point) returns (run: Run)
    requires Distinct4(j, a, b, c)
    ensures Simple(Lollipop(j, a, b, c)) && |Lollipop(j, a, b, c)[j]| == 3
    ensures ValidRun(Lollipop(j, a, b, c), run)
    ensures NormalForm(After(Lollipop(j, a, b, c), run)) && After(Lollipop(j, a, b, c), run).Keys == {b, c}
  {
    LollipopShape(j, a, b, c);
    LollipopFirst(j, a, b, c);
    LollipopSecond(j, b, c);
    run := LollipopRun(Lollipop(j, a, b, c), LollipopHalf(j, b, c), j, a, b, c);
    SingleEdgeIsNormal(b, c);
  }

  /** The triangle is a chain that closes on j. */
  lemma LollipopIsCollapsible(j: Point, a: Point, b: Point, c: Point)
    requires Distinct4(j, a, b, c)
    ensures Collapsible(Lollipop(j, a, b, c), Fixed(Lollipop(j, a, b, c)))
  {
    var g := Lollipop(j, a, b, c);
    var run := JunctionCanVanish(j, a, b, c);
    KeptExactlyWithoutChains(g, run);
    assert !KeptAt(g, After(g, run), j);
  }

  /** Contracting a and then j, as a run. */
  lemma LollipopRun(g: Adjacency, h: Adjacency, j: Point, a: Point, b: Point, c: Point) returns (run: Run)
    requires Between(g, a, j, b) && j in g && b in g && Contract(g, a, j, b) == h
    requires Between(h, j, b, c) && b in h && c in h
    ensures ValidRun(g, run) && After(g, run) == Contract(h, j, b, c)
  {
    assert ValidRun(g, Start) && After(g, Start) == g;
    var first := Then(Start, a, j, b);
    assert ValidRun(g, first) && After(g, first) == h;
    run := Then(first, j, b, c);
  }

  function SingleEdge(b: Point, c: Point): Adjacency {
    map[b := map[c := 2], c := map[b := 2]]
  }

  lemma SingleEdgeIsNormal(b: Point, c: Point)
    requires b != c
    ensures NormalForm(SingleEdge(b, c)) && SingleEdge(b, c).Keys == {b, c}
  {
    var k := SingleEdge(b, c);
    assert |k[b]| == 1 && |k[c]| == 1;
  }

  lemma LollipopShape(j: Point, a: Point, b: Point, c: Point)
    requires Distinct4(j, a, b, c)
    ensures Simple(Lollipop(j, a, b, c)) && |Lollipop(j, a, b, c)[j]| == 3
  {
    var g := Lollipop(j, a, b, c);
    assert g[j].Keys == {a, b, c} && g[a].Keys == {j, b} && g[b].Keys == {j, a} && g[c].Keys == {j};
    assert |g[j]| == |g[j].Keys|;
  }

  lemma LollipopWithoutA(j: Point, a: Point, b: Point, c: Point)
    requires Distinct4(j, a, b, c)
    ensures WithoutNode(Lollipop(j, a, b, c), a) == LollipopHalf(j, b, c)
  {
    var g, h := Lollipop(j, a, b, c), LollipopHalf(j, b, c);
    assert g[j] - {a} == h[j] && g[b] - {a} == h[b] && g[c] - {a} == h[c];
    assert WithoutNode(g, a).Keys == h.Keys;
  }

  lemma LollipopFirst(j: Point, a: Point, b: Point, c: Point)
    requires Distinct4(j, a, b, c)
    ensures var g := Lollipop(j, a, b, c);
      Between(g, a, j, b) && Contract(g, a, j, b) == LollipopHalf(j, b, c)
  {
    var g, h := Lollipop(j, a, b, c), LollipopHalf(j, b, c);
    assert g[a].Keys == {j, b};
    LollipopWithoutA(j, a, b, c);
    assert NewWeight(g, a, j, b) == 1;
    HalfHasEdge(j, b, c);
  }

  lemma HalfHasEdge(j: Point, b: Point, c: Point)
    requires j != b && j != c && b != c
    ensures WithEdge(LollipopHalf(j, b, c), j, b, 1) == LollipopHalf(j, b, c)
  {
    var h := LollipopHalf(j, b, c);
    assert h[j][b := 1] == h[j] && h[b][j := 1] == h[b];
  }

  lemma LollipopSecond(j: Point, b: Point, c: Point)
    requires j != b && j != c && b != c
    ensures var h := LollipopHalf(j, b, c);
      Between(h, j, b, c) && Contract(h, j, b, c) == SingleEdge(b, c)
  {
    var h := LollipopHalf(j, b, c);
    assert h[j].Keys == {b, c};
    assert h[b] - {j} == map[] && h[c] - {j} == map[];
    assert WithoutNode(h, j) == map[b := map[], c := map[]];
    assert NewWeight(h, j, b, c) == 2;
  }
}
