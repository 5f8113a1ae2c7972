/** The worklist of an agent workflow run (ragflow/agent/canvas.py). */
module CanvasPath {
  import opened Basics

  type Id = string

  datatype Kind =
    Begin | UserFillUp | Iteration | Loop | IterationItem | LoopItem | Categorize | Switch | ExitLoop | Plain

  /** The fixed part of a component; `refs` are the components its inputs refer to, `start` is the first component
      inside an iteration or loop. */
  datatype Component = Component(kind: Kind, refs: seq<Id>, downstream: seq<Id>, parent: Option<Id>, start: Id)

  /** What one execution of a component turned out to be: `goto` is the exception branch, if there is one. */
  datatype Result = Result(error: bool, goto: seq<Id>, hasDefault: bool, ended: bool, next: seq<Id>)

  /** The workflow and everything about it that is decided elsewhere: `result` by round and place on the path. */
  datatype Workflow = Workflow(component: Id -> Component, fillUpId: Id -> bool, result: (nat, nat) -> Result)

  // ----- dependencies

  predicate FreeKind(kind: Kind) {
    kind == Begin || kind == UserFillUp
  }

  /** All components that c refers to are among those before it. */
  predicate RefsMet(w: Workflow, before: seq<Id>, c: Id) {
    forall ref | ref in w.component(c).refs :: ref in before
  }

  /** c may run behind `before`: it needs no check, the path began with a fill-up, or its references are met. */
  predicate MayRun(w: Workflow, before: seq<Id>, c: Id) {
    || FreeKind(w.component(c).kind)
    || w.fillUpId(if before == [] then c else before[0])
    || RefsMet(w, before, c)
  }

  /** Only a component that is neither the begin nor a fill-up is ever dropped, only from a path that does not begin
      with a fill-up, and only if it refers to one that is not there. */
  lemma DroppedExactly(w: Workflow, before: seq<Id>, c: Id)
    ensures !MayRun(w, before, c) <==>
      && w.component(c).kind != Begin && w.component(c).kind != UserFillUp
      && !w.fillUpId((before + [c])[0])
      && exists ref :: ref in w.component(c).refs && ref !in before
  {
  }

  /** From place `start` on, every component could run behind those before it. */
  ghost predicate Ordered(w: Workflow, history: seq<Id>, start: nat) {
    forall k | start <= k < |history| :: MayRun(w, history[..k], history[k])
  }

  /** `before` followed by those of the batch that may run behind what is there by then. */
  function Admitted(w: Workflow, before: seq<Id>, batch: seq<Id>): seq<Id> {
    if batch == [] then before
    else
      var init := Admitted(w, before, batch[..|batch| - 1]);
      var c := batch[|batch| - 1];
      if MayRun(w, init, c) then init + [c] else init
  }

  lemma AdmittedStep(w: Workflow, before: seq<Id>, batch: seq<Id>, n: nat)
    requires n < |batch|
    ensures Admitted(w, before, batch[..n + 1]) ==
      var init := Admitted(w, before, batch[..n]); if MayRun(w, init, batch[n]) then init + [batch[n]] else init
  {
    assert batch[..n + 1][..n] == batch[..n];
  }

  /** The first n components of the batch have been executed or taken off the path, which is at place i. */
  ghost predicate Handled(w: Workflow, base: seq<Id>, batch: seq<Id>, path: seq<Id>, i: nat, n: nat) {
    && n <= |batch| && i <= |path|
    && path[..i] == Admitted(w, base, batch[..n]) && path[i..] == batch[n..]
  }

  lemma HandledStep(w: Workflow, base: seq<Id>, batch: seq<Id>, path: seq<Id>, i: nat, n: nat, dropped: bool)
    requires Handled(w, base, batch, path, i, n) && i < |path| && dropped == !MayRun(w, path[..i], path[i])
    ensures if dropped then Handled(w, base, batch, path[..i] + path[i + 1..], i, n + 1)
            else Handled(w, base, batch, path, i + 1, n + 1)
  {
    var before, rest := path[..i], path[i..];
    assert path[i] == rest[0] == batch[n] && rest[1..] == batch[n + 1..] == path[i + 1..];
    AdmittedStep(w, base, batch, n);
    if dropped {
      var shorter := before + path[i + 1..];
      assert shorter[..i] == before && shorter[i..] == path[i + 1..];
    } else {
      assert path[..i + 1] == before + [path[i]];
    }
  }

  lemma {:induction false} AdmittedIsOrdered(w: Workflow, before: seq<Id>, batch: seq<Id>, start: nat)
    requires Ordered(w, before, start)
    ensures before <= Admitted(w, before, batch)
    ensures Ordered(w, Admitted(w, before, batch), start)
  {
    if batch == [] {
    } else {
      AdmittedIsOrdered(w, before, batch[..|batch| - 1], start);
      var init := Admitted(w, before, batch[..|batch| - 1]);
      var c := batch[|batch| - 1];
      if MayRun(w, init, c) {
        var all := init + [c];
        forall k | start <= k < |all|
          ensures MayRun(w, all[..k], all[k])
        {
          assert all[..k] == init[..k];
          assert k == |init| ==> init[..k] == init;
        }
      }
    }
  }

  /** In a run whose path did not begin with a fill-up, every component that is neither the begin nor a fill-up
      component has all its references earlier in the history. */
  lemma ReferencesComeFirst(w: Workflow, history: seq<Id>, start: nat, k: nat, ref: Id)
    requires Ordered(w, history, start) && start <= k < |history|
    requires !FreeKind(w.component(history[k]).kind) && !w.fillUpId(history[0])
    requires ref in w.component(history[k]).refs
    ensures exists j :: 0 <= j < k && history[j] == ref
  {
    assert MayRun(w, history[..k], history[k]);
    if k > 0 {
      assert history[..k][0] == history[0];
    }
    assert ref in history[..k];
  }

  // ----- what is appended

  /** Appends unless it is the last entry already. */
  function AppendPath(path: seq<Id>, c: Id): seq<Id> {
    if path != [] && path[|path| - 1] == c then path else path + [c]
  }

  function ExtendPath(path: seq<Id>, cs: seq<Id>): seq<Id> {
    if cs == [] then path else AppendPath(ExtendPath(path, cs[..|cs| - 1]), cs[|cs| - 1])
  }

  lemma {:induction false} ExtendKeeps(path: seq<Id>, cs: seq<Id>)
    ensures path <= ExtendPath(path, cs)
  {
    if cs == [] {
    } else {
      ExtendKeeps(path, cs[..|cs| - 1]);
    }
  }

  /** From a place on, no entry repeats the one before it. */
  ghost predicate NoRepeats(path: seq<Id>, from: nat) {
    forall k | from <= k < |path| && k > 0 :: path[k] != path[k - 1]
  }

  /** Nothing that is appended repeats the entry before it, and the last of the components ends the path, .. */
  lemma {:induction false} RepeatsAreSkipped(path: seq<Id>, cs: seq<Id>)
    ensures NoRepeats(ExtendPath(path, cs), |path|)
    ensures var all := ExtendPath(path, cs); cs != [] ==> all != [] && all[|all| - 1] == cs[|cs| - 1]
  {
    if cs == [] {
    } else {
      RepeatsAreSkipped(path, cs[..|cs| - 1]);
    }
  }

  /** .. and without repetitions everything is appended. */
  lemma {:induction false} OthersAreAppended(path: seq<Id>, cs: seq<Id>)
    requires NoRepeats(path + cs, |path|)
    ensures ExtendPath(path, cs) == path + cs
  {
    if cs == [] {
    } else {
      var all, n := path + cs, |path + cs| - 1;
      LastOfAppend(path, cs);
      assert all[..n] == path + cs[..|cs| - 1] && all == all[..n] + [cs[|cs| - 1]];
      assert NoRepeats(all[..n], |path|);
      OthersAreAppended(path, cs[..|cs| - 1]);
      assert n > 0 ==> all[n] != all[n - 1];
    }
  }

  function ParentOf(w: Workflow, c: Component): Component {
    w.component(if c.parent.Some? then c.parent.value else "")
  }

  /** The components to follow c, by its kind and its result. */
  function Successors(w: Workflow, c: Component, result: Result): seq<Id> {
    if (c.kind == IterationItem || c.kind == LoopItem) && result.ended then ParentOf(w, c).downstream
    else if c.kind == Categorize || c.kind == Switch then result.next
    else if c.kind == Iteration || c.kind == Loop then [c.start]
    else if c.kind == ExitLoop && c.parent.Some? && ParentOf(w, c).kind == Loop then ParentOf(w, c).downstream
    else if c.downstream == [] && c.parent.Some? then [ParentOf(w, c).start]
    else c.downstream
  }

  predicate IsContainer(kind: Kind) {
    kind == Iteration || kind == Loop
  }

  /** Every kind has its way on: an item at its end leaves for what comes behind its container, a decision takes its
      branches, a container goes to its first component, an exit leaves the loop that it is in, and what is last in a
      container goes back to the first; the others go downstream. */
  lemma SuccessorsByKind(w: Workflow, c: Component, result: Result)
    ensures c.kind in {IterationItem, LoopItem} && result.ended && c.parent.Some? ==>
      Successors(w, c, result) == w.component(c.parent.value).downstream
    ensures c.kind in {Categorize, Switch} ==> Successors(w, c, result) == result.next
    ensures IsContainer(c.kind) ==> Successors(w, c, result) == [c.start]
    ensures c.kind == ExitLoop && c.parent.Some? && w.component(c.parent.value).kind == Loop ==>
      Successors(w, c, result) == w.component(c.parent.value).downstream
    ensures GoesOn(w, c, result) && (c.downstream != [] || c.parent.None?) ==>
      Successors(w, c, result) == c.downstream
    ensures GoesOn(w, c, result) && c.downstream == [] && c.parent.Some? ==>
      Successors(w, c, result) == [w.component(c.parent.value).start]
  {
  }

  /** No container, no decision, and nothing that leaves a container. */
  predicate GoesOn(w: Workflow, c: Component, result: Result) {
    || c.kind in {Begin, UserFillUp, Plain}
    || (c.kind in {IterationItem, LoopItem} && !result.ended)
    || (c.kind == ExitLoop && (c.parent.None? || w.component(c.parent.value).kind != Loop))
  }

  /** Downstream and branches stay in the container, and a container starts with one of its own components. */
  ghost predicate WellNested(w: Workflow, id: Id, result: Result) {
    var c := w.component(id);
    && (forall d | d in c.downstream :: w.component(d).parent == c.parent)
    && (c.kind in {Categorize, Switch} ==> forall d | d in result.next :: w.component(d).parent == c.parent)
    && (IsContainer(c.kind) ==> w.component(c.start).parent == Some(id))
    && (c.kind in {IterationItem, LoopItem} ==> c.parent.Some?)
    && (c.parent.Some? ==> var container := w.component(c.parent.value);
          && w.component(container.start).parent == c.parent
          && forall d | d in container.downstream :: w.component(d).parent == container.parent)
  }

  /** Control enters a container only from the container itself, and leaves it only from an item at its end or an
      exit. */
  lemma ControlStaysNested(w: Workflow, id: Id, result: Result, next: Id)
    requires WellNested(w, id, result) && next in Successors(w, w.component(id), result)
    ensures var (c, n) := (w.component(id), w.component(next));
      || n.parent == c.parent
      || (IsContainer(c.kind) && n.parent == Some(id))
      || (c.parent.Some? && n.parent == w.component(c.parent.value).parent &&
          ((c.kind in {IterationItem, LoopItem} && result.ended) || c.kind == ExitLoop))
  {
  }

  /** What follows the component at place i of the path: its exception branch if it failed and has one. */
  function Following(w: Workflow, round: nat, c: Id, i: nat): seq<Id> {
    var result := w.result(round, i);
    if result.error && result.goto != [] then result.goto else Successors(w, w.component(c), result)
  }

  predicate FailsFor(result: Result) {
    result.error && result.goto == [] && !result.hasDefault
  }

  predicate SomeFails(w: Workflow, round: nat, f: nat, t: nat) {
    exists i: nat | f <= i < t :: FailsFor(w.result(round, i))
  }

  /** The path after c at place i has been looked at; only successors skip a repeated last entry. */
  function Looked(w: Workflow, round: nat, path: seq<Id>, c: Id, i: nat): seq<Id> {
    var result := w.result(round, i);
    if result.error && result.goto != [] then path + result.goto
    else ExtendPath(path, Successors(w, w.component(c), result))
  }

  /** The same for the components at places f to t. */
  function Processed(w: Workflow, round: nat, path: seq<Id>, f: nat, t: nat): seq<Id>
    requires f <= t <= |path|
  {
    if f == t then path else Looked(w, round, Processed(w, round, path, f, t - 1), path[t - 1], t - 1)
  }

  lemma ProcessedNext(w: Workflow, round: nat, path: seq<Id>, f: nat, i: nat)
    requires f <= i < |path| && path <= Processed(w, round, path, f, i)
    ensures Processed(w, round, path, f, i + 1) == Looked(w, round, Processed(w, round, path, f, i), path[i], i)
    ensures Processed(w, round, path, f, i)[i] == path[i]
    ensures path <= Processed(w, round, path, f, i + 1)
  {
    ExtendKeeps(Processed(w, round, path, f, i), Successors(w, w.component(path[i]), w.result(round, i)));
  }

  lemma SomeFailsStep(w: Workflow, round: nat, f: nat, i: nat)
    requires f <= i
    ensures SomeFails(w, round, f, i + 1) <==> SomeFails(w, round, f, i) || FailsFor(w.result(round, i))
  {
  }

  lemma {:induction false} ExtendMembers(path: seq<Id>, cs: seq<Id>, from: nat)
    requires from < |path|
    ensures path <= ExtendPath(path, cs)
    ensures forall c | c in cs :: c in ExtendPath(path, cs)[from..]
    ensures forall k | |path| <= k < |ExtendPath(path, cs)| :: ExtendPath(path, cs)[k] in cs
  {
    if cs == [] {
    } else {
      var init, last := cs[..|cs| - 1], cs[|cs| - 1];
      ExtendMembers(path, init, from);
      var before, all := ExtendPath(path, init), ExtendPath(path, cs);
      assert cs == init + [last] && all[|all| - 1] == last && before <= all;
      assert forall c | c in before[from..] :: c in all[from..] by { PrefixMembers(before, all, from); }
      assert last in all[from..] by { assert all[from..][|all| - 1 - from] == last; }
    }
  }

  lemma PrefixMembers(before: seq<Id>, all: seq<Id>, from: nat)
    requires before <= all && from <= |before|
    ensures forall c | c in before[from..] :: c in all[from..]
  {
    forall c | c in before[from..]
      ensures c in all[from..]
    {
      var k :| 0 <= k < |before| - from && before[from..][k] == c;
      assert all[from..][k] == c;
    }
  }

  /** c follows the component at some place from f to t. */
  ghost predicate FollowsSome(w: Workflow, round: nat, path: seq<Id>, f: nat, t: nat, c: Id)
    requires f <= t <= |path|
  {
    exists i: nat :: f <= i < t && c in Following(w, round, path[i], i)
  }

  lemma FollowsSomeStep(w: Workflow, round: nat, path: seq<Id>, f: nat, t: nat, c: Id)
    requires f < t <= |path|
    ensures FollowsSome(w, round, path, f, t, c) <==>
      FollowsSome(w, round, path, f, t - 1, c) || c in Following(w, round, path[t - 1], t - 1)
  {
  }

  lemma LookedMembers(w: Workflow, round: nat, path: seq<Id>, c: Id, i: nat, from: nat)
    requires from < |path|
    ensures var all, next := Looked(w, round, path, c, i), Following(w, round, c, i);
      && path <= all
      && (forall n | n in next :: n in all[from..])
      && (forall k | |path| <= k < |all| :: all[k] in next)
  {
    ExtendMembers(path, Successors(w, w.component(c), w.result(round, i)), from);
    var all, next := Looked(w, round, path, c, i), Following(w, round, c, i);
    if all == path + next {
      assert all[from..] == path[from..] + next;
    }
  }

  /** `all` extends the path by entries that follow components of the batch, and every such entry is on it from the
      batch on. */
  ghost predicate ExactlyFollowed(w: Workflow, round: nat, path: seq<Id>, f: nat, t: nat, all: seq<Id>)
    requires f <= t <= |path|
  {
    && path <= all
    && (forall c | FollowsSome(w, round, path, f, t, c) :: c in all[f..])
    && (forall k | |path| <= k < |all| :: FollowsSome(w, round, path, f, t, all[k]))
  }

  lemma ExactlyFollowedStep(w: Workflow, round: nat, path: seq<Id>, f: nat, t: nat, before: seq<Id>)
    requires f < t <= |path| && ExactlyFollowed(w, round, path, f, t - 1, before)
    ensures ExactlyFollowed(w, round, path, f, t, Looked(w, round, before, path[t - 1], t - 1))
  {
    var all := Looked(w, round, before, path[t - 1], t - 1);
    LookedMembers(w, round, before, path[t - 1], t - 1, f);
    PrefixMembers(before, all, f);
    forall c | FollowsSome(w, round, path, f, t, c)
      ensures c in all[f..]
    {
      FollowsSomeStep(w, round, path, f, t, c);
    }
    forall k | |path| <= k < |all|
      ensures FollowsSome(w, round, path, f, t, all[k])
    {
      FollowsSomeStep(w, round, path, f, t, all[k]);
      if k < |before| {
        assert all[k] == before[k];
      }
    }
  }

  /** Looking at a batch puts on the path what follows its components, and nothing else. */
  lemma {:induction false} ProcessedIsExact(w: Workflow, round: nat, path: seq<Id>, f: nat, t: nat)
    requires f <= t <= |path|
    ensures ExactlyFollowed(w, round, path, f, t, Processed(w, round, path, f, t))
  {
    if f < t {
      ProcessedIsExact(w, round, path, f, t - 1);
      ExactlyFollowedStep(w, round, path, f, t, Processed(w, round, path, f, t - 1));
    }
  }

  // ----- the run

  /** The path that a run starts with. */
  function StartPath(w: Workflow, path: seq<Id>): (started: seq<Id>)
    ensures started != []
  {
    if path != [] && w.fillUpId(path[|path| - 1]) then path else path + ["begin"]
  }

  /** The entries that are, or are not, fill-up components, in order. */
  function Chosen(w: Workflow, pending: seq<Id>, fillUps: bool): seq<Id> {
    if pending == [] then []
    else
      var c := pending[|pending| - 1];
      Chosen(w, pending[..|pending| - 1], fillUps) +
      if (w.component(c).kind == UserFillUp) == fillUps then [c] else []
  }

  /** What is left for the next run: the fill-up components first, then the others. */
  function FillUpsFirst(w: Workflow, pending: seq<Id>): seq<Id> {
    Chosen(w, pending, true) + Chosen(w, pending, false)
  }

  /** Handing over reorders the pending entries and loses none. */
  lemma {:induction false} HandOverKeepsAll(w: Workflow, pending: seq<Id>)
    ensures multiset(FillUpsFirst(w, pending)) == multiset(pending)
    ensures forall c | c in Chosen(w, pending, true) :: w.component(c).kind == UserFillUp
    ensures forall c | c in Chosen(w, pending, false) :: w.component(c).kind != UserFillUp
  {
    if pending == [] {
    } else {
      var init, c := pending[..|pending| - 1], pending[|pending| - 1];
      HandOverKeepsAll(w, init);
      LastSplit(pending);
      var first, others := Chosen(w, init, true), Chosen(w, init, false);
      if w.component(c).kind == UserFillUp {
        assert Chosen(w, pending, true) == first + [c] && Chosen(w, pending, false) == others + [] == others;
      } else {
        assert Chosen(w, pending, true) == first + [] == first && Chosen(w, pending, false) == others + [c];
      }
    }
  }

  /** Among themselves the fill-ups keep their order, and so do the others. */
  lemma {:induction false} ChosenKeepsOrder(w: Workflow, pending: seq<Id>, fillUps: bool) returns (places: seq<nat>)
    ensures forall i, k | 0 <= i < k < |places| :: places[i] < places[k]
    ensures |places| == |Chosen(w, pending, fillUps)|
    ensures forall k | 0 <= k < |places| ::
      places[k] < |pending| && Chosen(w, pending, fillUps)[k] == pending[places[k]]
  {
    if pending == [] {
      places := [];
    } else {
      var n := |pending| - 1;
      places := ChosenKeepsOrder(w, pending[..n], fillUps);
      if (w.component(pending[n]).kind == UserFillUp) == fillUps {
        places := places + [n];
      }
    }
  }

  datatype Status = Running | Failed | HandedOver | Finished

  class Canvas {
    const w: Workflow
    var path: seq<Id>
    var idx: nat
    var round: nat
    var status: Status
    ghost var start: nat
    ghost var history: seq<Id>

    constructor (w: Workflow, path: seq<Id>)
      ensures this.w == w && this.path == path
    {
      this.w, this.path := w, path;
      idx, round, status, start, history := 0, 0, Finished, 0, [];
    }

    /** The history is what was on the path before the run and all components executed since, in order. */
    ghost predicate Valid()
      reads this
    {
      && start <= |history| && Ordered(w, history, start)
      && (status == Running ==> idx <= |path| && path[..idx] == history)
      && (status == Finished ==> path == history)
      && (status == Failed ==> path <= history && start <= |path|)
    }

    /** A run begins with the begin component, or with the fill-up component that ended the previous run. */
    method StartRun()
      modifies this
      ensures Valid() && status == Running && history == path[..start] && idx == start == |path| - 1
      ensures path == StartPath(w, old(path))
    {
      if path == [] || !w.fillUpId(path[|path| - 1]) {
        path := path + ["begin"];
      }
      idx, round, status := |path| - 1, 0, Running;
      start, history := idx, path[..idx];
    }

    /** Whether the component at place i refers to one that is not before it, on a path without a leading fill-up. */
    method Lacks(i: nat) returns (dropped: bool)
      requires i < |path| && !FreeKind(w.component(path[i]).kind)
      ensures dropped <==> !MayRun(w, path[..i], path[i])
    {
      var refs := w.component(path[i]).refs;
      assert MayRun(w, path[..i], path[i]) <==> w.fillUpId(path[0]) || RefsMet(w, path[..i], path[i]);
      for n := 0 to |refs|
        invariant forall m | 0 <= m < n :: refs[m] in path[..i] || w.fillUpId(path[0])
      {
        if refs[n] !in path[..i] && !w.fillUpId(path[0]) {
          return true;
        }
      }
      return false;
    }

    /** Executes the components at places f to t; those whose references are not met are taken off the path. */
    method RunBatch(f: nat, t: nat)
      requires f <= t == |path|
      modifies this`path
      ensures path == Admitted(w, old(path)[..f], old(path)[f..])
    {
      var i, end := f, t;
      ghost var base, batch := path[..f], path[f..];
      ghost var n := 0;
      while i < end
        invariant 0 <= i <= end == |path|
        invariant Handled(w, base, batch, path, i, n)
        decreases end - i
      {
        var dropped := false;
        if !FreeKind(w.component(path[i]).kind) {
          dropped := Lacks(i);
        }
        HandledStep(w, base, batch, path, i, n, dropped);
        if dropped {
          path := path[..i] + path[i + 1..];
          end := end - 1;
        } else {
          i := i + 1;
        }
        n := n + 1;
      }
      assert batch[..n] == batch;
    }

    /** Appends what follows the component at place i; tells whether it failed without a remedy. */
    method PostProcessOne(i: nat) returns (error: bool)
      requires i < |path|
      modifies this`path
      ensures path == Looked(w, round, old(path), old(path)[i], i)
      ensures error <==> FailsFor(w.result(round, i))
    {
      error := false;
      var c := w.component(path[i]);
      var result := w.result(round, i);
      var otherBranch := false;
      if result.error {
        if result.goto != [] {
          path := path + result.goto;
          otherBranch := true;
        } else if !result.hasDefault {
          error := true;
        }
      }
      if !otherBranch {
        path := ExtendPath(path, Successors(w, c, result));
      }
    }

    /** Does so for the components at places f to t. */
    method PostProcess(f: nat, t: nat) returns (error: bool)
      requires f <= t == |path|
      modifies this`path
      ensures path == Processed(w, round, old(path), f, t) && old(path) <= path
      ensures error <==> SomeFails(w, round, f, t)
    {
      error := false;
      ghost var original := path;
      for i := f to t
        invariant path == Processed(w, round, original, f, i) && original <= path
        invariant error <==> SomeFails(w, round, f, i)
      {
        ProcessedNext(w, round, original, f, i);
        SomeFailsStep(w, round, f, i);
        var failed := PostProcessOne(i);
        error := error || failed;
      }
    }

    /** Goes on behind place `to`, unless nothing is left there or a fill-up component waits. */
    method GoOn(to: nat) returns (ghost pending: seq<Id>)
      requires to <= |path| && path[..to] == history && start <= to && Ordered(w, history, start)
      modifies this`path, this`idx, this`round, this`status
      ensures Valid() && status != Failed && pending == old(path)[to..]
      ensures status == Running ==> path == old(path) && idx == to < |path| && round == old(round) + 1
      ensures status == Finished ==> pending == []
      ensures status == HandedOver ==> path == FillUpsFirst(w, pending)
      ensures status == HandedOver <==> exists c :: c in pending && w.component(c).kind == UserFillUp
    {
      pending := path[to..];
      idx, round := to, round + 1;
      if exists c :: c in path[idx..] && w.component(c).kind == UserFillUp {
        path := FillUpsFirst(w, path[idx..]);
        status := HandedOver;
      } else if idx == |path| {
        assert path[..to] == path;
        status := Finished;
      } else {
        status := Running;
      }
    }

    /** The batch at the end of the path is executed and becomes history. */
    method ExecuteBatch()
      requires Valid() && status == Running
      modifies this`path, this`history
      ensures history == path == Admitted(w, old(history), old(path)[old(idx)..])
      ensures Ordered(w, history, start) && idx <= |path| && path[..idx] == old(history)
    {
      AdmittedIsOrdered(w, history, path[idx..], start);
      RunBatch(idx, |path|);
      history := path;
    }

    /** One round of the main loop: what has been executed stays, in order, and the rest is pending. */
    method Round() returns (ghost pending: seq<Id>)
      requires Valid() && status == Running && idx < |path|
      modifies this
      ensures Valid() && start == old(start) && old(history) <= history
      ensures history == Admitted(w, old(history), old(path)[old(idx)..])
      ensures history + pending == Processed(w, old(round), history, old(idx), |history|)
      ensures status == Failed <==> SomeFails(w, old(round), old(idx), |history|)
      ensures status == Running ==> path == history + pending && idx < |path| && round == old(round) + 1
      ensures status == Finished ==> pending == []
      ensures status == Failed ==> path == old(history)
      ensures status == HandedOver ==> path == FillUpsFirst(w, pending)
      ensures status == HandedOver <==>
        (status != Failed && exists c :: c in pending && w.component(c).kind == UserFillUp)
    {
      var to, error;
      to, error, pending := ExecuteAndProcess();
      if error {
        Fail();
      } else {
        ghost var left := GoOn(to);
      }
    }

    /** The batch is executed, and what follows its components is put on the path. */
    method ExecuteAndProcess() returns (to: nat, error: bool, ghost pending: seq<Id>)
      requires Valid() && status == Running
      modifies this`path, this`history
      ensures history == Admitted(w, old(history), old(path)[old(idx)..]) && to == |history|
      ensures Ordered(w, history, start) && old(history) <= history
      ensures path == history + pending == Processed(w, round, history, idx, |history|)
      ensures error <==> SomeFails(w, round, idx, to)
    {
      ExecuteBatch();
      to := |path|;
      error := PostProcess(idx, to);
      pending := path[to..];
    }

    /** A failed run keeps the path that it had before the round. */
    method Fail()
      requires start <= idx <= |history| && history <= path && Ordered(w, history, start)
      modifies this`path, this`status
      ensures Valid() && status == Failed && path == history[..idx]
    {
      path, status := path[..idx], Failed;
    }

    /** Any number of rounds: the history keeps the path that the run began with. */
    method Run(rounds: nat)
      modifies this
      ensures Valid() && start == |StartPath(w, old(path))| - 1
      ensures history[..start] == StartPath(w, old(path))[..start]
    {
      StartRun();
      var n := 0;
      while n < rounds && status == Running
        invariant Valid() && (status == Running ==> idx < |path|)
        invariant start == |StartPath(w, old(path))| - 1 && history[..start] == StartPath(w, old(path))[..start]
      {
        ghost var before := history;
        ghost var pending := Round();
        assert history[..|before|] == before;
        n := n + 1;
      }
    }
  }
}
