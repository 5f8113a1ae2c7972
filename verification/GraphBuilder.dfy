/** Building the directed graph of a flowchart and its cycle-reducing pass (flowchart/flowchart/graph_builder.py). */
module GraphBuilder {
  import opened Basics
  import opened LinkSearch

  type Edge = (nat, nat)

  // ----- simple cycles

  /** Every vertex has an edge to the next one, and the last to the first. */
  predicate ClosedWalk(edges: set<Edge>, p: seq<nat>) {
    && p != []
    && (forall k | 0 <= k < |p| - 1 :: (p[k], p[k + 1]) in edges)
    && (p[|p| - 1], p[0]) in edges
  }

  predicate NoRepeats(p: seq<nat>) {
    forall i, k | 0 <= i < k < |p| :: p[i] != p[k]
  }

  /** A closed walk without repeated vertices, written from its smallest vertex on. */
  predicate SimpleCycle(edges: set<Edge>, p: seq<nat>) {
    ClosedWalk(edges, p) && NoRepeats(p) && forall k | 0 <= k < |p| :: p[0] <= p[k]
  }

  function Arrangements(nodes: set<nat>, k: nat): set<seq<nat>> {
    if k == 0 then {[]}
    else set s, v | s in Arrangements(nodes, k - 1) && v in nodes && v !in s :: s + [v]
  }

  function ArrangementsUpTo(nodes: set<nat>, k: nat): set<seq<nat>> {
    Arrangements(nodes, k) + (if k == 0 then {} else ArrangementsUpTo(nodes, k - 1))
  }

  /** What networkx enumerates: the simple cycles, each once. */
  function SimpleCycles(nodes: set<nat>, edges: set<Edge>): set<seq<nat>> {
    set p | p in ArrangementsUpTo(nodes, |nodes|) && SimpleCycle(edges, p)
  }

  ghost predicate Over(nodes: set<nat>, edges: set<Edge>) {
    forall e | e in edges :: e.0 in nodes && e.1 in nodes
  }

  lemma {:induction false} IsArrangement(nodes: set<nat>, s: seq<nat>)
    requires NoRepeats(s) && forall v | v in s :: v in nodes
    ensures s in Arrangements(nodes, |s|)
  {
    if s == [] {
    } else {
      var init, v := s[..|s| - 1], s[|s| - 1];
      IsArrangement(nodes, init);
      assert s == init + [v] && v in s;
    }
  }

  lemma {:induction false} DistinctFit(nodes: set<nat>, s: seq<nat>)
    requires NoRepeats(s) && forall v | v in s :: v in nodes
    ensures |s| <= |nodes|
  {
    if s == [] {
    } else {
      assert s[0] in s;
      forall v | v in s[1..]
        ensures v in nodes - {s[0]}
      {
        assert v in s;
      }
      DistinctFit(nodes - {s[0]}, s[1..]);
    }
  }

  lemma {:induction false} UpTo(nodes: set<nat>, j: nat, k: nat, s: seq<nat>)
    requires s in Arrangements(nodes, j) && j <= k
    ensures s in ArrangementsUpTo(nodes, k)
  {
    if j < k {
      UpTo(nodes, j, k - 1, s);
    }
  }

  /** The enumeration is sound and complete. */
  lemma SimpleCyclesAreAll(nodes: set<nat>, edges: set<Edge>, p: seq<nat>)
    requires Over(nodes, edges)
    ensures p in SimpleCycles(nodes, edges) <==> SimpleCycle(edges, p)
  {
    if SimpleCycle(edges, p) {
      forall v | v in p
        ensures v in nodes
      {
        var k :| 0 <= k < |p| && p[k] == v;
        assert (p[k], p[if k == |p| - 1 then 0 else k + 1]) in edges;
      }
      IsArrangement(nodes, p);
      DistinctFit(nodes, p);
      UpTo(nodes, |p|, |nodes|, p);
    }
  }

  /** p read from place k on, and then from its beginning. */
  function Rotated(p: seq<nat>, k: nat): seq<nat>
    requires k <= |p|
  {
    p[k..] + p[..k]
  }

  /** The place of the smallest vertex. */
  function Least(p: seq<nat>): (m: nat)
    requires p != []
    ensures m < |p| && forall k | 0 <= k < |p| :: p[m] <= p[k]
  {
    if |p| == 1 then 0
    else
      var m := Least(p[..|p| - 1]);
      assert forall k | 0 <= k < |p| - 1 :: p[..|p| - 1][k] == p[k];
      if p[|p| - 1] < p[m] then |p| - 1 else m
  }

  /** Any closed walk contains a simple cycle. */
  lemma {:induction false} ClosedWalkHasCycle(edges: set<Edge>, p: seq<nat>) returns (c: seq<nat>)
    requires ClosedWalk(edges, p)
    ensures SimpleCycle(edges, c)
    decreases |p|
  {
    if i, k :| 0 <= i < k < |p| && p[i] == p[k] {
      c := ClosedWalkHasCycle(edges, p[i..k]);
    } else {
      var m := Least(p);
      c := Rotated(p, m);
      RotationCloses(edges, p, m);
    }
  }

  lemma RotationCloses(edges: set<Edge>, p: seq<nat>, m: nat)
    requires ClosedWalk(edges, p) && m < |p|
    ensures ClosedWalk(edges, Rotated(p, m))
  {
    var c := Rotated(p, m);
    forall k | 0 <= k < |c| - 1
      ensures (c[k], c[k + 1]) in edges
    {
      var j := m + k;
      if j < |p| - 1 {
        assert (p[j], p[j + 1]) in edges;
      } else if j >= |p| {
        assert (p[j - |p|], p[j - |p| + 1]) in edges;
      }
    }
    if m > 0 {
      assert (p[m - 1], p[m - 1 + 1]) in edges;
    }
  }

  ghost predicate Acyclic(edges: set<Edge>) {
    forall p :: !ClosedWalk(edges, p)
  }

  lemma AcyclicMeansNoCycles(nodes: set<nat>, edges: set<Edge>)
    requires Over(nodes, edges)
    ensures Acyclic(edges) <==> SimpleCycles(nodes, edges) == {}
  {
    if p :| ClosedWalk(edges, p) {
      var c := ClosedWalkHasCycle(edges, p);
      SimpleCyclesAreAll(nodes, edges, c);
    }
  }

  // ----- the pass as a function

  function CycleCount(nodes: set<nat>, edges: set<Edge>): nat {
    |SimpleCycles(nodes, edges)|
  }

  function Reverse(e: Edge): Edge {
    (e.1, e.0)
  }

  function Turned(edges: set<Edge>, e: Edge): set<Edge> {
    edges - {e} + {Reverse(e)}
  }

  /** One attempt: the edge is turned round unless its reverse exists or that would add cycles. */
  function TryReverse(nodes: set<nat>, edges: set<Edge>, e: Edge): set<Edge> {
    if Reverse(e) in edges - {e} || CycleCount(nodes, Turned(edges, e)) > CycleCount(nodes, edges) then edges
    else Turned(edges, e)
  }

  /** The attempts in the order of the snapshot. */
  function Pass(nodes: set<nat>, edges: set<Edge>, snapshot: seq<Edge>): set<Edge> {
    if snapshot == [] then edges
    else
      var init := Pass(nodes, edges, snapshot[..|snapshot| - 1]);
      TryReverse(nodes, init, snapshot[|snapshot| - 1])
  }

  ghost predicate DistinctEdges(snapshot: seq<Edge>) {
    forall i, k | 0 <= i < k < |snapshot| :: snapshot[i] != snapshot[k]
  }

  /** Same lines, possibly turned round: one-way lines stay one-way, two-way lines stay two-way. */
  ghost predicate SameLines(before: set<Edge>, after: set<Edge>) {
    && (forall e: Edge :: e in after || Reverse(e) in after <==> e in before || Reverse(e) in before)
    && (forall e: Edge :: e in after && Reverse(e) in after <==> e in before && Reverse(e) in before)
    && |after| == |before|
  }

  /** Whatever the attempts: lines stay, cycles do not multiply, and edges not yet tried are still there. */
  lemma {:induction false} PassKeepsLines(nodes: set<nat>, edges: set<Edge>, snapshot: seq<Edge>)
    requires Over(nodes, edges) && DistinctEdges(snapshot) && forall e | e in snapshot :: e in edges
    ensures Over(nodes, Pass(nodes, edges, snapshot))
    ensures SameLines(edges, Pass(nodes, edges, snapshot))
    ensures CycleCount(nodes, Pass(nodes, edges, snapshot)) <= CycleCount(nodes, edges)
    ensures forall e | e in edges && e !in snapshot :: e in Pass(nodes, edges, snapshot)
  {
    if snapshot == [] {
    } else {
      var init, e := snapshot[..|snapshot| - 1], snapshot[|snapshot| - 1];
      forall f | f in init
        ensures f in edges
      {
        assert f in snapshot;
      }
      PassKeepsLines(nodes, edges, init);
      assert e in snapshot && e !in init;
      TryKeepsLines(nodes, Pass(nodes, edges, init), e);
      var mid, end := Pass(nodes, edges, init), Pass(nodes, edges, snapshot);
      forall f | f in edges && f !in snapshot
        ensures f in end
      {
        assert f !in init && f != e;
      }
    }
  }

  lemma TryKeepsLines(nodes: set<nat>, edges: set<Edge>, e: Edge)
    requires Over(nodes, edges) && e in edges
    ensures Over(nodes, TryReverse(nodes, edges, e)) && SameLines(edges, TryReverse(nodes, edges, e))
    ensures CycleCount(nodes, TryReverse(nodes, edges, e)) <= CycleCount(nodes, edges)
    ensures forall f | f in edges && f != e :: f in TryReverse(nodes, edges, e)
  {
    if Reverse(e) !in edges - {e} {
      assert |edges - {e}| == |edges| - 1;
      assert |Turned(edges, e)| == |edges|;
    }
  }

  // ----- what turning one edge does to the number of cycles

  predicate Walk(edges: set<Edge>, p: seq<nat>) {
    forall k | 0 <= k < |p| - 1 :: (p[k], p[k + 1]) in edges
  }

  predicate SimplePath(edges: set<Edge>, a: nat, b: nat, p: seq<nat>) {
    p != [] && p[0] == a && p[|p| - 1] == b && NoRepeats(p) && Walk(edges, p)
  }

  function SimplePaths(nodes: set<nat>, edges: set<Edge>, a: nat, b: nat): set<seq<nat>> {
    set p | p in ArrangementsUpTo(nodes, |nodes|) && SimplePath(edges, a, b, p)
  }

  function PathCount(nodes: set<nat>, edges: set<Edge>, a: nat, b: nat): nat {
    |SimplePaths(nodes, edges, a, b)|
  }

  /** This enumeration is sound and complete, too. */
  lemma SimplePathsAreAll(nodes: set<nat>, edges: set<Edge>, a: nat, b: nat, p: seq<nat>)
    requires Over(nodes, edges) && a in nodes
    ensures p in SimplePaths(nodes, edges, a, b) <==> SimplePath(edges, a, b, p)
  {
    if SimplePath(edges, a, b, p) {
      forall v | v in p
        ensures v in nodes
      {
        var k :| 0 <= k < |p| && p[k] == v;
        assert k > 0 ==> (p[k - 1], p[k - 1 + 1]) in edges;
      }
      IsArrangement(nodes, p);
      DistinctFit(nodes, p);
      UpTo(nodes, |p|, |nodes|, p);
    }
  }

  lemma RotatedBack(p: seq<nat>, k: nat)
    requires k <= |p|
    ensures Rotated(Rotated(p, k), |p| - k) == p
  {
  }

  lemma RotatedNoRepeats(p: seq<nat>, k: nat)
    requires NoRepeats(p) && k <= |p|
    ensures NoRepeats(Rotated(p, k))
  {
  }

  /** The cycle that a path closes, written from its smallest vertex on. */
  function Closed(p: seq<nat>): seq<nat> {
    if p == [] then [] else Rotated(p, Least(p))
  }

  /** Where an element of a list without repeats is. */
  lemma OnlyOnce(p: seq<nat>, i: nat, k: nat)
    requires NoRepeats(p) && i < |p| && k < |p| && p[i] == p[k]
    ensures i == k
  {
  }

  lemma RotationClosesToo(edges: set<Edge>, p: seq<nat>, m: nat)
    requires m < |p|
    ensures ClosedWalk(edges, Rotated(p, m)) <==> ClosedWalk(edges, p)
  {
    if ClosedWalk(edges, p) {
      RotationCloses(edges, p, m);
    }
    if ClosedWalk(edges, Rotated(p, m)) {
      UnrotationCloses(edges, p, m);
    }
  }

  lemma UnrotationCloses(edges: set<Edge>, p: seq<nat>, m: nat)
    requires m < |p| && ClosedWalk(edges, Rotated(p, m))
    ensures ClosedWalk(edges, p)
  {
    if m == 0 {
      assert Rotated(p, 0) == p;
    } else {
      RotatedBack(p, m);
      RotationCloses(edges, Rotated(p, m), |p| - m);
    }
  }

  /** A path from the head of e to its tail closes, over e, to a cycle that is none without e. */
  lemma PathCloses(base: set<Edge>, e: Edge, p: seq<nat>)
    requires e !in base && SimplePath(base, e.1, e.0, p)
    ensures SimpleCycle(base + {e}, Closed(p)) && !ClosedWalk(base, Closed(p))
  {
    var m := Least(p);
    assert ClosedWalk(base + {e}, p) && !ClosedWalk(base, p);
    RotationClosesToo(base + {e}, p, m);
    RotationClosesToo(base, p, m);
    RotatedNoRepeats(p, m);
    assert Closed(p)[0] == p[m];
  }

  /** However a cycle is rotated, reading it from its smallest vertex gives the cycle again. */
  lemma RotatedCloses(c: seq<nat>, k: nat)
    requires NoRepeats(c) && k < |c| && forall i | 0 <= i < |c| :: c[0] <= c[i]
    ensures Closed(Rotated(c, k)) == c
  {
    var p, start := Rotated(c, k), if k == 0 then 0 else |c| - k;
    assert p[start] == c[0];
    RotatedNoRepeats(c, k);
    var m := Least(p);
    assert p[m] == if m < |c| - k then c[k + m] else c[m - (|c| - k)];
    OnlyOnce(p, m, start);
    RotatedBack(c, k);
    assert k == 0 ==> Rotated(p, |p|) == Rotated(p, 0);
  }

  /** A cycle over e, opened at e, is such a path. */
  lemma CycleOpens(base: set<Edge>, e: Edge, c: seq<nat>) returns (p: seq<nat>)
    requires e.0 != e.1 && SimpleCycle(base + {e}, c) && !ClosedWalk(base, c)
    ensures SimplePath(base, e.1, e.0, p) && Closed(p) == c
  {
    var k := EdgeOnCycle(base, e, c);
    var next := if k == |c| - 1 then 0 else k + 1;
    p := Rotated(c, next);
    RotationClosesToo(base + {e}, c, next);
    RotatedNoRepeats(c, next);
    RotatedCloses(c, next);
    assert p[0] == e.1 && p[|p| - 1] == e.0;
    OpenWalkAvoids(base, e, p);
  }

  lemma OpenWalkAvoids(base: set<Edge>, e: Edge, p: seq<nat>)
    requires p != [] && NoRepeats(p) && Walk(base + {e}, p) && p[|p| - 1] == e.0
    ensures Walk(base, p)
  {
    forall i | 0 <= i < |p| - 1
      ensures (p[i], p[i + 1]) in base
    {
      assert (p[i], p[i + 1]) in base + {e} && p[i] != p[|p| - 1];
    }
  }

  lemma EdgeOnCycle(base: set<Edge>, e: Edge, c: seq<nat>) returns (k: nat)
    requires ClosedWalk(base + {e}, c) && !ClosedWalk(base, c)
    ensures k < |c| && c[k] == e.0 && c[if k == |c| - 1 then 0 else k + 1] == e.1
  {
    if (c[|c| - 1], c[0]) !in base {
      k := |c| - 1;
    } else {
      k :| 0 <= k < |c| - 1 && (c[k], c[k + 1]) !in base;
      assert (c[k], c[k + 1]) in base + {e};
    }
  }

  /** Two paths from the same vertex that close to the same cycle are the same. */
  lemma ClosedOnce(p: seq<nat>, q: seq<nat>)
    requires p != [] && q != [] && NoRepeats(p) && NoRepeats(q) && p[0] == q[0] && Closed(p) == Closed(q)
    ensures p == q
  {
    var c, m, n := Closed(p), Least(p), Least(q);
    RotatedBack(p, m);
    RotatedBack(q, n);
    RotatedNoRepeats(p, m);
    var i, j := if m == 0 then 0 else |c| - m, if n == 0 then 0 else |c| - n;
    assert c[i] == p[0] && c[j] == q[0];
    OnlyOnce(c, i, j);
  }

  function AllClosed(paths: set<seq<nat>>): set<seq<nat>> {
    set p | p in paths :: Closed(p)
  }

  ghost predicate AllFrom(paths: set<seq<nat>>, v: nat) {
    forall p | p in paths :: p != [] && p[0] == v && NoRepeats(p)
  }

  lemma {:induction false} AllClosedSize(paths: set<seq<nat>>, v: nat)
    requires AllFrom(paths, v)
    ensures |AllClosed(paths)| == |paths|
  {
    if paths == {} {
      assert AllClosed(paths) == {};
    } else {
      var p :| p in paths;
      var rest := paths - {p};
      assert rest + {p} == paths;
      AllClosedSize(rest, v);
      NotClosedBefore(rest, p, v);
      assert paths == rest + {p};
      assert AllClosed(paths) == AllClosed(rest) + {Closed(p)};
    }
  }

  lemma NotClosedBefore(paths: set<seq<nat>>, p: seq<nat>, v: nat)
    requires AllFrom(paths + {p}, v) && p !in paths
    ensures Closed(p) !in AllClosed(paths)
  {
    assert p in paths + {p};
    forall q | q in paths
      ensures Closed(q) != Closed(p)
    {
      assert q in paths + {p};
      if Closed(q) == Closed(p) {
        ClosedOnce(q, p);
      }
    }
  }

  lemma CyclesWithEdge(nodes: set<nat>, base: set<Edge>, e: Edge)
    requires Over(nodes, base + {e}) && e !in base && e.0 != e.1
    ensures var added := AllClosed(SimplePaths(nodes, base, e.1, e.0));
      && SimpleCycles(nodes, base + {e}) == SimpleCycles(nodes, base) + added
      && SimpleCycles(nodes, base) !! added
  {
    var before, all := SimpleCycles(nodes, base), SimpleCycles(nodes, base + {e});
    var paths := SimplePaths(nodes, base, e.1, e.0);
    var added := AllClosed(paths);
    assert e in base + {e} && Over(nodes, base);
    forall p | p in paths
      ensures Closed(p) in all && Closed(p) !in before
    {
      PathCloses(base, e, p);
      SimpleCyclesAreAll(nodes, base + {e}, Closed(p));
    }
    forall c
      ensures c in all <==> c in before || c in added
    {
      CycleWithEdge(nodes, base, e, c);
    }
  }

  lemma CycleWithEdge(nodes: set<nat>, base: set<Edge>, e: Edge, c: seq<nat>)
    requires Over(nodes, base + {e}) && Over(nodes, base) && e.1 in nodes && e.0 != e.1
    ensures c in SimpleCycles(nodes, base) ==> c in SimpleCycles(nodes, base + {e})
    ensures c in SimpleCycles(nodes, base + {e}) && c !in SimpleCycles(nodes, base) ==>
      exists p :: p in SimplePaths(nodes, base, e.1, e.0) && Closed(p) == c
  {
    SimpleCyclesAreAll(nodes, base + {e}, c);
    SimpleCyclesAreAll(nodes, base, c);
    if SimpleCycle(base + {e}, c) && !ClosedWalk(base, c) {
      var p := CycleOpens(base, e, c);
      SimplePathsAreAll(nodes, base, e.1, e.0, p);
    }
  }

  /** Adding an edge adds one cycle for each simple path that leads from its head back to its tail. */
  lemma CycleCountWithEdge(nodes: set<nat>, base: set<Edge>, e: Edge)
    requires Over(nodes, base + {e}) && e !in base && e.0 != e.1
    ensures CycleCount(nodes, base + {e}) == CycleCount(nodes, base) + PathCount(nodes, base, e.1, e.0)
  {
    CyclesWithEdge(nodes, base, e);
    AllClosedSize(SimplePaths(nodes, base, e.1, e.0), e.1);
  }

  /** Turning a one-way edge changes the number of cycles by the number of other paths along it minus the number
      of paths against it. So it is turned exactly if there are no more of the former, and turning removes cycles
      exactly if there are fewer. */
  lemma TurnedExactly(nodes: set<nat>, edges: set<Edge>, e: Edge)
    requires Over(nodes, edges) && e in edges && e.0 != e.1 && Reverse(e) !in edges
    ensures var along, against := PathCount(nodes, edges - {e}, e.0, e.1), PathCount(nodes, edges - {e}, e.1, e.0);
      && CycleCount(nodes, Turned(edges, e)) - CycleCount(nodes, edges) == along - against
      && (TryReverse(nodes, edges, e) == Turned(edges, e) <==> along <= against)
      && (TryReverse(nodes, edges, e) == edges <==> along > against)
      && (CycleCount(nodes, TryReverse(nodes, edges, e)) < CycleCount(nodes, edges) <==> along < against)
  {
    var base := edges - {e};
    assert base + {e} == edges && base + {Reverse(e)} == Turned(edges, e);
    CycleCountWithEdge(nodes, base, e);
    CycleCountWithEdge(nodes, base, Reverse(e));
    assert e !in Turned(edges, e);
  }

  /** The graph at the moment when the pass comes to place i of the snapshot. */
  function AtTurn(nodes: set<nat>, edges: set<Edge>, snapshot: seq<Edge>, i: nat): set<Edge>
    requires i <= |snapshot|
  {
    Pass(nodes, edges, snapshot[..i])
  }

  /** Attempts at other lines do not touch e, turned or not. */
  lemma {:induction false} LaterAttemptsKeep(nodes: set<nat>, edges: set<Edge>, snapshot: seq<Edge>, i: nat, n: nat)
    requires i < n <= |snapshot| && DistinctEdges(snapshot)
    requires Reverse(snapshot[i]) !in snapshot
    ensures snapshot[i] in AtTurn(nodes, edges, snapshot, n) <==> snapshot[i] in AtTurn(nodes, edges, snapshot, i + 1)
    ensures Reverse(snapshot[i]) in AtTurn(nodes, edges, snapshot, n) <==>
      Reverse(snapshot[i]) in AtTurn(nodes, edges, snapshot, i + 1)
  {
    if n == i + 1 {
    } else {
      LaterAttemptsKeep(nodes, edges, snapshot, i, n - 1);
      assert snapshot[..n][..n - 1] == snapshot[..n - 1];
      var e, f := snapshot[i], snapshot[n - 1];
      assert f != e && f in snapshot && f != Reverse(e) && Reverse(f) != e;
    }
  }

  /** Over the whole pass: a one-way edge ends up turned exactly if, when its turn came, there were no more paths
      along it than against it. */
  lemma PassTurnsExactly(nodes: set<nat>, edges: set<Edge>, snapshot: seq<Edge>, i: nat)
    requires Over(nodes, edges) && DistinctEdges(snapshot) && forall f | f in snapshot :: f in edges
    requires i < |snapshot| && snapshot[i].0 != snapshot[i].1 && Reverse(snapshot[i]) !in edges
    ensures var e, others := snapshot[i], AtTurn(nodes, edges, snapshot, i) - {snapshot[i]};
      && (Reverse(e) in Pass(nodes, edges, snapshot) <==>
            PathCount(nodes, others, e.0, e.1) <= PathCount(nodes, others, e.1, e.0))
      && (e in Pass(nodes, edges, snapshot) <==> Reverse(e) !in Pass(nodes, edges, snapshot))
  {
    var e, mid := snapshot[i], AtTurn(nodes, edges, snapshot, i);
    EdgeAtItsTurn(nodes, edges, snapshot, i);
    TurnedExactly(nodes, mid, e);
    assert snapshot[..i + 1][..i] == snapshot[..i];
    assert Reverse(e) !in snapshot;
    LaterAttemptsKeep(nodes, edges, snapshot, i, |snapshot|);
    assert snapshot[..|snapshot|] == snapshot;
  }

  lemma EdgeAtItsTurn(nodes: set<nat>, edges: set<Edge>, snapshot: seq<Edge>, i: nat)
    requires Over(nodes, edges) && DistinctEdges(snapshot) && forall f | f in snapshot :: f in edges
    requires i < |snapshot| && Reverse(snapshot[i]) !in edges
    ensures var mid := AtTurn(nodes, edges, snapshot, i);
      Over(nodes, mid) && SameLines(edges, mid) && snapshot[i] in mid && Reverse(snapshot[i]) !in mid
  {
    var init := snapshot[..i];
    assert forall f | f in init :: f in snapshot;
    PassKeepsLines(nodes, edges, init);
    assert snapshot[i] in snapshot && snapshot[i] !in init;
  }

  // ----- edges that lie on no cycle

  /** Every two neighbours on p are joined by an edge, in whichever direction, other than e and its reverse. */
  ghost predicate LineWalk(edges: set<Edge>, e: Edge, p: seq<nat>) {
    forall k | 0 <= k < |p| - 1 :: OtherLine(edges, e, (p[k], p[k + 1]))
  }

  ghost predicate OtherLine(edges: set<Edge>, e: Edge, f: Edge) {
    f != e && f != Reverse(e) && (f in edges || Reverse(f) in edges)
  }

  /** Without e nothing joins its two ends, whatever way the other edges are turned. */
  ghost predicate Bridge(edges: set<Edge>, e: Edge) {
    && e.0 != e.1
    && forall p | p != [] && LineWalk(edges, e, p) :: !(p[0] == e.0 && p[|p| - 1] == e.1)
  }

  lemma Backwards(edges: set<Edge>, e: Edge, p: seq<nat>) returns (q: seq<nat>)
    requires p != [] && LineWalk(edges, e, p)
    ensures q != [] && LineWalk(edges, e, q) && q[0] == p[|p| - 1] && q[|q| - 1] == p[0]
  {
    var n := |p|;
    q := seq(n, k requires 0 <= k < n => p[n - 1 - k]);
    forall k | 0 <= k < |q| - 1
      ensures OtherLine(edges, e, (q[k], q[k + 1]))
    {
      assert OtherLine(edges, e, (p[n - 2 - k], p[n - 2 - k + 1]));
    }
  }

  lemma BridgeHasNoPaths(nodes: set<nat>, edges: set<Edge>, e: Edge)
    requires Over(nodes, edges) && e in edges && Bridge(edges, e) && Reverse(e) !in edges
    ensures PathCount(nodes, edges - {e}, e.0, e.1) == 0 && PathCount(nodes, edges - {e}, e.1, e.0) == 0
  {
    var along := SimplePaths(nodes, edges - {e}, e.0, e.1);
    var against := SimplePaths(nodes, edges - {e}, e.1, e.0);
    forall p
      ensures p !in along && p !in against
    {
      assert p in along || p in against ==> LineWalk(edges, e, p);
      if p in against {
        var q := Backwards(edges, e, p);
      }
    }
    assert along == {} && against == {};
  }

  lemma SameLinesBridge(before: set<Edge>, after: set<Edge>, e: Edge)
    requires SameLines(before, after) && Bridge(before, e)
    ensures Bridge(after, e)
  {
    forall p | p != [] && LineWalk(after, e, p)
      ensures !(p[0] == e.0 && p[|p| - 1] == e.1)
    {
      forall k | 0 <= k < |p| - 1
        ensures OtherLine(before, e, (p[k], p[k + 1]))
      {
        assert OtherLine(after, e, (p[k], p[k + 1]));
      }
      assert LineWalk(before, e, p);
    }
  }

  /** The pass turns round every bridge that it meets, although that removes no cycle. */
  lemma BridgesAreReversed(nodes: set<nat>, edges: set<Edge>, snapshot: seq<Edge>, i: nat)
    requires Over(nodes, edges) && DistinctEdges(snapshot) && forall f | f in snapshot :: f in edges
    requires i < |snapshot| && Bridge(edges, snapshot[i]) && Reverse(snapshot[i]) !in edges
    ensures var e, mid := snapshot[i], AtTurn(nodes, edges, snapshot, i);
      && Reverse(e) in Pass(nodes, edges, snapshot) && e !in Pass(nodes, edges, snapshot)
      && CycleCount(nodes, Turned(mid, e)) == CycleCount(nodes, mid)
  {
    var e, mid := snapshot[i], AtTurn(nodes, edges, snapshot, i);
    EdgeAtItsTurn(nodes, edges, snapshot, i);
    SameLinesBridge(edges, mid, e);
    BridgeHasNoPaths(nodes, mid, e);
    TurnedExactly(nodes, mid, e);
    PassTurnsExactly(nodes, edges, snapshot, i);
  }

  /** The vertex u has no other edge than e. */
  ghost predicate Pendant(edges: set<Edge>, e: Edge, u: nat) {
    && (u == e.0 || u == e.1) && e.0 != e.1
    && forall f | f in edges && (f.0 == u || f.1 == u) :: f == e || f == Reverse(e)
  }

  lemma PendantIsBridge(edges: set<Edge>, e: Edge, u: nat)
    requires Pendant(edges, e, u)
    ensures Bridge(edges, e)
  {
    forall p | p != [] && LineWalk(edges, e, p)
      ensures !(p[0] == e.0 && p[|p| - 1] == e.1)
    {
      assert |p| >= 2 ==> OtherLine(edges, e, (p[0], p[0 + 1])) && OtherLine(edges, e, (p[|p| - 2], p[|p| - 2 + 1]));
    }
  }

  lemma PendantEdgesAreReversed(nodes: set<nat>, edges: set<Edge>, snapshot: seq<Edge>, i: nat, u: nat)
    requires Over(nodes, edges) && DistinctEdges(snapshot) && forall f | f in snapshot :: f in edges
    requires i < |snapshot| && Pendant(edges, snapshot[i], u) && Reverse(snapshot[i]) !in edges
    ensures Reverse(snapshot[i]) in Pass(nodes, edges, snapshot) && snapshot[i] !in Pass(nodes, edges, snapshot)
  {
    PendantIsBridge(edges, snapshot[i], u);
    BridgesAreReversed(nodes, edges, snapshot, i);
  }

  // ----- the code

  class DiGraph {
    var nodes: set<nat>
    var edges: set<Edge>

    constructor ()
      ensures nodes == {} && edges == {}
    {
      nodes, edges := {}, {};
    }

    method AddNode(i: nat)
      modifies this`nodes
      ensures nodes == old(nodes) + {i}
    {
      nodes := nodes + {i};
    }

    method AddEdge(u: nat, v: nat)
      modifies this
      ensures nodes == old(nodes) + {u, v} && edges == old(edges) + {(u, v)}
    {
      nodes := nodes + {u, v};
      edges := edges + {(u, v)};
    }

    /** Removing an absent edge is an error. */
    method RemoveEdge(u: nat, v: nat)
      requires (u, v) in edges
      modifies this`edges
      ensures edges == old(edges) - {(u, v)}
    {
      edges := edges - {(u, v)};
    }
  }

  function DrawnEdges(links: seq<Link>): set<Edge> {
    set l | l in links :: (l.src, l.dst)
  }

  function DrawnNodes(links: seq<Link>): set<nat> {
    (set l | l in links :: l.src) + (set l | l in links :: l.dst)
  }

  lemma DrawnStep(links: seq<Link>, i: nat)
    requires i < |links|
    ensures DrawnEdges(links[..i + 1]) == DrawnEdges(links[..i]) + {(links[i].src, links[i].dst)}
    ensures DrawnNodes(links[..i + 1]) == DrawnNodes(links[..i]) + {links[i].src, links[i].dst}
    ensures forall e | e in DrawnEdges(links[..i]) :: e.0 in DrawnNodes(links[..i]) && e.1 in DrawnNodes(links[..i])
  {
    assert links[..i + 1] == links[..i] + [links[i]];
  }

  /** One vertex per box, one edge per distinct link, and then the reversal pass if there is any cycle. */
  method BuildGraph(count: nat, links: seq<Link>)
    returns (graph: DiGraph, ghost drawn: set<Edge>, ghost snapshot: seq<Edge>)
    ensures fresh(graph)
    ensures drawn == DrawnEdges(links) && graph.nodes == Range(count) + DrawnNodes(links)
    ensures DistinctEdges(snapshot) && forall e :: e in snapshot <==> e in drawn
    ensures graph.edges == if Acyclic(drawn) then drawn else Pass(graph.nodes, drawn, snapshot)
    ensures SameLines(drawn, graph.edges)
    ensures CycleCount(graph.nodes, graph.edges) <= CycleCount(graph.nodes, drawn)
  {
    graph := new DiGraph();
    for i := 0 to count
      invariant fresh(graph) && graph.edges == {} && graph.nodes == Range(i)
    {
      graph.AddNode(i);
    }
    for i := 0 to |links|
      invariant fresh(graph)
      invariant graph.edges == DrawnEdges(links[..i]) && graph.nodes == Range(count) + DrawnNodes(links[..i])
    {
      var Link(u, v) := links[i];
      DrawnStep(links, i);
      if (u, v) !in graph.edges {
        graph.AddEdge(u, v);
      }
    }
    assert links[..|links|] == links;
    drawn := graph.edges;
    AcyclicMeansNoCycles(graph.nodes, drawn);
    snapshot := ReduceCycles(graph);
  }

  /** One attempt of the pass: turns the edge, counts the cycles again, and turns it back if there are more. */
  method TurnIfNoWorse(graph: DiGraph, u: nat, v: nat, cyclesBefore: set<seq<nat>>) returns (cycles: set<seq<nat>>)
    requires (u, v) in graph.edges && u in graph.nodes && v in graph.nodes
    requires cyclesBefore == SimpleCycles(graph.nodes, graph.edges)
    modifies graph
    ensures graph.nodes == old(graph.nodes)
    ensures graph.edges == TryReverse(graph.nodes, old(graph.edges), (u, v))
    ensures cycles == SimpleCycles(graph.nodes, graph.edges)
  {
    cycles := cyclesBefore;
    ghost var nodes, edges := graph.nodes, graph.edges;
    graph.RemoveEdge(u, v);
    if (v, u) !in graph.edges {
      graph.AddEdge(v, u);
      assert graph.nodes == nodes;
      var cyclesAfter := SimpleCycles(graph.nodes, graph.edges);
      if |cyclesAfter| > |cyclesBefore| {
        graph.RemoveEdge(v, u);
        graph.AddEdge(u, v);
        assert graph.edges == edges;
      } else {
        cycles := cyclesAfter;
      }
    } else {
      graph.AddEdge(u, v);
      assert graph.edges == edges;
    }
    assert graph.nodes == nodes;
  }

  lemma PassStep(nodes: set<nat>, edges: set<Edge>, snapshot: seq<Edge>, i: nat)
    requires Over(nodes, edges) && DistinctEdges(snapshot) && i < |snapshot|
    requires forall f | f in snapshot :: f in edges
    ensures var mid, e := Pass(nodes, edges, snapshot[..i]), snapshot[i];
      && e in mid && e.0 in nodes && e.1 in nodes
      && Pass(nodes, edges, snapshot[..i + 1]) == TryReverse(nodes, mid, e)
  {
    assert forall f | f in snapshot[..i] :: f in snapshot;
    PassKeepsLines(nodes, edges, snapshot[..i]);
    assert snapshot[i] in snapshot && snapshot[i] !in snapshot[..i];
    assert snapshot[..i + 1][..i] == snapshot[..i];
  }

  method ReduceCycles(graph: DiGraph) returns (ghost snapshot: seq<Edge>)
    requires Over(graph.nodes, graph.edges)
    modifies graph
    ensures graph.nodes == old(graph.nodes)
    ensures DistinctEdges(snapshot) && forall e :: e in snapshot <==> e in old(graph.edges)
    ensures graph.edges == if SimpleCycles(graph.nodes, old(graph.edges)) == {} then old(graph.edges)
                           else Pass(graph.nodes, old(graph.edges), snapshot)
    ensures SameLines(old(graph.edges), graph.edges)
    ensures CycleCount(graph.nodes, graph.edges) <= CycleCount(graph.nodes, old(graph.edges))
  {
    var list := Listed(graph.edges);
    snapshot := list;
    var cyclesBefore := SimpleCycles(graph.nodes, graph.edges);
    if cyclesBefore != {} {
      ghost var nodes, drawn := graph.nodes, graph.edges;
      for i := 0 to |list|
        invariant graph.nodes == nodes
        invariant graph.edges == Pass(nodes, drawn, list[..i])
        invariant cyclesBefore == SimpleCycles(nodes, graph.edges)
      {
        var (u, v) := list[i];
        PassStep(nodes, drawn, list, i);
        cyclesBefore := TurnIfNoWorse(graph, u, v, cyclesBefore);
      }
      assert list[..|list|] == list;
      PassKeepsLines(nodes, drawn, list);
    }
  }
}
