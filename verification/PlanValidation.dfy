/** Plan structure checks and the level-by-level batching of a subtask plan. */
module PlanValidation {
  import opened Graphs
  import opened DependencyCounts
  import opened WalkOrders
  import opened Wrappers

  /** One step; an absent `dependsOn` is the empty sequence. */
  datatype Step = Step(id: string, capability: string, dependsOn: seq<string>, hasInput: bool)

  datatype Batching =
    | Batches(levels: seq<seq<string>>)
    | UnknownDependency(stepId: string, dependency: string)
    | DependencyCycle

  function Ids(steps: seq<Step>): set<string> {
    set s | s in steps :: s.id
  }

  predicate UniqueIds(steps: seq<Step>) {
    forall i, j :: 0 <= i < j < |steps| ==> steps[i].id != steps[j].id
  }

  predicate KnownDependencies(steps: seq<Step>) {
    forall s, d :: s in steps && d in s.dependsOn ==> d in Ids(steps)
  }

  /** Edges from a dependency to the step that waits for it. */
  function DependencyEdges(steps: seq<Step>): Edges {
    set s, d | s in steps && d in s.dependsOn :: (d, s.id)
  }

  function StepEntries(id: string, deps: seq<string>): Entries {
    seq(|deps|, i requires 0 <= i < |deps| => (deps[i], id))
  }

  function PlanEntries(steps: seq<Step>): Entries {
    if steps == [] then [] else
      var last := steps[|steps| - 1];
      PlanEntries(steps[..|steps| - 1]) + StepEntries(last.id, last.dependsOn)
  }

  function Flatten(levels: seq<seq<string>>): seq<string> {
    if levels == [] then [] else Flatten(levels[..|levels| - 1]) + levels[|levels| - 1]
  }

  lemma {:induction false} PlanEntriesAreEdges(steps: seq<Step>)
    ensures EdgesOf(PlanEntries(steps)) == DependencyEdges(steps)
  {
    if steps == [] {
    } else {
      var front, last := steps[..|steps| - 1], steps[|steps| - 1];
      PlanEntriesAreEdges(front);
      var own := StepEntries(last.id, last.dependsOn);
      forall e ensures e in own <==> e.1 == last.id && e.0 in last.dependsOn {
        if e.1 == last.id && e.0 in last.dependsOn {
          var i :| 0 <= i < |last.dependsOn| && last.dependsOn[i] == e.0;
          assert own[i] == e;
        }
      }
      assert forall s :: s in steps <==> s in front || s == last;
      forall e ensures e in EdgesOf(PlanEntries(steps)) <==> e in DependencyEdges(steps) {
        assert e in PlanEntries(steps) <==> e in PlanEntries(front) || e in own;
        assert e in PlanEntries(front) <==> e in EdgesOf(PlanEntries(front));
        if e in DependencyEdges(steps) {
          var s, d :| s in steps && d in s.dependsOn && e == (d, s.id);
        }
      }
    }
  }

  lemma {:induction false} FlattenMember(levels: seq<seq<string>>, x: string)
    ensures x in Flatten(levels) <==> exists k :: 0 <= k < |levels| && x in levels[k]
  {
    if levels == [] {
    } else {
      FlattenMember(levels[..|levels| - 1], x);
      if x in levels[|levels| - 1] {
        assert 0 <= |levels| - 1 < |levels|;
      }
    }
  }

  /** Every step is placed, and only after everything it waits for. */
  ghost predicate IsSchedule(steps: seq<Step>, levels: seq<seq<string>>) {
    (forall x :: x in Ids(steps) <==> x in Flatten(levels)) &&
    forall k, x {:trigger DependenciesIn(steps, x, Flatten(levels[..k]))} ::
      0 <= k < |levels| && x in levels[k] ==> DependenciesIn(steps, x, Flatten(levels[..k]))
  }

  ghost predicate DependenciesIn(steps: seq<Step>, x: string, earlier: seq<string>) {
    forall d :: (d, x) in DependencyEdges(steps) ==> d in earlier
  }

  /** A schedule with every step placed once and as early as its dependencies allow. */
  ghost predicate IsLayering(steps: seq<Step>, levels: seq<seq<string>>) {
    IsSchedule(steps, levels) &&
    Distinct(Flatten(levels)) &&
    (forall k :: 0 <= k < |levels| ==> levels[k] != []) &&
    forall k, x {:trigger WaitsForPrevious(steps, levels, k, x)} ::
      0 < k < |levels| && x in levels[k] ==> WaitsForPrevious(steps, levels, k, x)
  }

  ghost predicate WaitsForPrevious(steps: seq<Step>, levels: seq<seq<string>>, k: nat, x: string)
    requires 0 < k <= |levels|
  {
    exists d :: d in levels[k - 1] && (d, x) in DependencyEdges(steps)
  }

  // ----- What a layering means -----

  /** The first level that holds `x`. */
  function LevelOf(levels: seq<seq<string>>, x: string): (k: nat)
    requires exists k :: 0 <= k < |levels| && x in levels[k]
    ensures k < |levels| && x in levels[k] && forall j :: 0 <= j < k ==> x !in levels[j]
  {
    if x in levels[0] then 0 else
      var k :| 0 <= k < |levels| && x in levels[k];
      assert x in levels[1..][k - 1];
      1 + LevelOf(levels[1..], x)
  }

  lemma LevelOfUnique(levels: seq<seq<string>>, k: nat, x: string)
    requires Distinct(Flatten(levels)) && k < |levels| && x in levels[k]
    ensures x !in Flatten(levels[..k])
    ensures LevelOf(levels, x) == k
  {
    FlattenSplit(levels, k);
    var front, rest := Flatten(levels[..k]), levels[k] + Flatten(levels[k + 1..]);
    var j :| 0 <= j < |levels[k]| && levels[k][j] == x;
    assert Flatten(levels)[|front| + j] == x;
    forall i | 0 <= i < |front| ensures front[i] != x {
      assert Flatten(levels)[i] == front[i];
    }
    FlattenMember(levels[..k], x);
    forall m | 0 <= m < k ensures x !in levels[m] {
      assert levels[..k][m] == levels[m];
    }
  }

  lemma {:induction false} FlattenSplit(levels: seq<seq<string>>, k: nat)
    requires k < |levels|
    ensures Flatten(levels) == Flatten(levels[..k]) + (levels[k] + Flatten(levels[k + 1..]))
    decreases |levels|
  {
    var n := |levels| - 1;
    if k == n {
      assert levels[k + 1..] == [];
      assert Flatten(levels[k + 1..]) == [];
    } else {
      FlattenSplit(levels[..n], k);
      assert levels[..n][..k] == levels[..k];
      assert levels[..n][k + 1..] == levels[k + 1..][..|levels[k + 1..]| - 1];
    }
  }

  /** A map from every scheduled step to the index of the level that holds it. */
  ghost function LevelMap(steps: seq<Step>, levels: seq<seq<string>>): (m: map<string, nat>)
    requires IsSchedule(steps, levels)
    ensures m.Keys == Ids(steps)
    ensures forall x :: x in m ==> m[x] < |levels| && x in levels[m[x]]
  {
    map x | x in Ids(steps) :: (FlattenMember(levels, x); LevelOf(levels, x))
  }

  /** In any schedule of a plan with known dependencies, levels grow strictly along every dependency. */
  lemma ScheduleLevelsGrow(steps: seq<Step>, levels: seq<seq<string>>)
    requires KnownDependencies(steps) && IsSchedule(steps, levels)
    ensures var m := LevelMap(steps, levels);
            forall e :: e in DependencyEdges(steps) ==> e.0 in m && e.1 in m && m[e.0] < m[e.1]
  {
    var m := LevelMap(steps, levels);
    forall e | e in DependencyEdges(steps) ensures e.0 in m && e.1 in m && m[e.0] < m[e.1] {
      var k := m[e.1];
      assert DependenciesIn(steps, e.1, Flatten(levels[..k]));
      FlattenMember(levels[..k], e.0);
      var j :| 0 <= j < k && e.0 in levels[..k][j];
      assert e.0 in levels[j];
    }
  }

  /** A plan that can be scheduled at all has no dependency cycle. */
  lemma ScheduleForbidsCycle(steps: seq<Step>, levels: seq<seq<string>>)
    requires KnownDependencies(steps) && IsSchedule(steps, levels)
    ensures !HasCycle(DependencyEdges(steps))
  {
    ScheduleLevelsGrow(steps, levels);
    LevelForbidsCycle(DependencyEdges(steps), LevelMap(steps, levels));
  }

  lemma {:induction false} ChainIntoLevel(steps: seq<Step>, levels: seq<seq<string>>, k: nat, x: string)
    returns (p: seq<string>)
    requires IsLayering(steps, levels) && k < |levels| && x in levels[k]
    ensures IsWalk(DependencyEdges(steps), p) && |p| == k + 1 && p[k] == x
  {
    if k == 0 {
      p := [x];
    } else {
      assert WaitsForPrevious(steps, levels, k, x);
      var d :| d in levels[k - 1] && (d, x) in DependencyEdges(steps);
      var q := ChainIntoLevel(steps, levels, k - 1, d);
      WalkExtend(DependencyEdges(steps), q, x);
      p := q + [x];
    }
  }

  lemma LevelIsLongestChain(steps: seq<Step>, levels: seq<seq<string>>, k: nat, x: string)
    requires KnownDependencies(steps) && IsLayering(steps, levels) && k < |levels| && x in levels[k]
    ensures LongestChainTo(DependencyEdges(steps), x, k)
  {
    FlattenMember(levels, x);
    LevelOfUnique(levels, k, x);
    var p := ChainIntoLevel(steps, levels, k, x);
    var m := LevelMap(steps, levels);
    LevelOfUnique(levels, m[x], x);
    ScheduleLevelsGrow(steps, levels);
    forall q | IsWalk(DependencyEdges(steps), q) && q[|q| - 1] == x ensures |q| <= k + 1 {
      LevelBoundsWalk(DependencyEdges(steps), m, q);
    }
  }

  /** Level `k` of a layering holds exactly the steps whose longest dependency chain has `k` edges. */
  lemma LayeringIsLongestChain(steps: seq<Step>, levels: seq<seq<string>>, k: nat, x: string)
    requires KnownDependencies(steps) && IsLayering(steps, levels) && k < |levels|
    ensures x in levels[k] <==> x in Ids(steps) && LongestChainTo(DependencyEdges(steps), x, k)
  {
    FlattenMember(levels, x);
    if x in levels[k] {
      LevelIsLongestChain(steps, levels, k, x);
    } else if x in Flatten(levels) {
      var l: nat :| l < |levels| && x in levels[l];
      LevelIsLongestChain(steps, levels, l, x);
      if LongestChainTo(DependencyEdges(steps), x, k) {
        LongestChainUnique(DependencyEdges(steps), x, k, l);
      }
    }
  }

  /** No schedule of the plan, layered or not, needs fewer levels. */
  lemma LayeringIsShortest(steps: seq<Step>, levels: seq<seq<string>>, other: seq<seq<string>>)
    requires KnownDependencies(steps) && IsLayering(steps, levels) && IsSchedule(steps, other)
    ensures |levels| <= |other|
  {
    if levels != [] {
      var k := |levels| - 1;
      var x := levels[k][0];
      FlattenMember(levels, x);
      var p := ChainIntoLevel(steps, levels, k, x);
      ScheduleLevelsGrow(steps, other);
      LevelBoundsWalk(DependencyEdges(steps), LevelMap(steps, other), p);
    }
  }

  // ----- planExecutionBatches -----

  lemma StepEntriesGrow(prior: Entries, id: string, deps: seq<string>, j: nat)
    requires j < |deps|
    ensures prior + StepEntries(id, deps[..j + 1]) == prior + StepEntries(id, deps[..j]) + [(deps[j], id)]
  {
    assert StepEntries(id, deps[..j + 1]) == StepEntries(id, deps[..j]) + [(deps[j], id)];
  }

  /** `d` is the first of the dependencies that is not known. */
  ghost predicate IsFirstUnknown(deps: seq<string>, known: set<string>, d: string) {
    exists j :: 0 <= j < |deps| && deps[j] == d && d !in known && forall i :: 0 <= i < j ==> deps[i] in known
  }

  /** Count the dependencies of one step, stopping at the first that names no step. */
  method CountStep(step: Step, degrees: map<string, int>, lists: map<string, seq<string>>, ghost prior: Entries)
    returns (unknown: Option<string>, inDegree: map<string, int>, children: map<string, seq<string>>)
    requires step.id in degrees && CountsMatch(prior, {}, degrees) && ChildrenMatch(prior, lists)
    ensures inDegree.Keys == degrees.Keys
    ensures unknown.None? <==> forall d :: d in step.dependsOn ==> d in degrees
    ensures unknown.Some? ==> IsFirstUnknown(step.dependsOn, degrees.Keys, unknown.value)
    ensures unknown.None? ==> CountsMatch(prior + StepEntries(step.id, step.dependsOn), {}, inDegree)
    ensures unknown.None? ==> ChildrenMatch(prior + StepEntries(step.id, step.dependsOn), children)
  {
    unknown, inDegree, children := None, degrees, lists;
    var deps := step.dependsOn;
    assert prior + StepEntries(step.id, deps[..0]) == prior;
    ghost var seen := prior;
    for j := 0 to |deps|
      invariant inDegree.Keys == degrees.Keys
      invariant forall i :: 0 <= i < j ==> deps[i] in degrees
      invariant seen == prior + StepEntries(step.id, deps[..j])
      invariant CountsMatch(seen, {}, inDegree) && ChildrenMatch(seen, children)
    {
      var dep := deps[j];
      if dep !in inDegree {
        unknown := Some(dep);
        assert deps[j] == dep;
        return;
      }
      inDegree, children := CountEntry(dep, step.id, inDegree, children, seen);
      StepEntriesGrow(prior, step.id, deps, j);
      seen := seen + [(dep, step.id)];
    }
    assert deps[..|deps|] == deps;
  }

  /** Every step starts with no dependency counted. */
  method ZeroDegrees(steps: seq<Step>) returns (inDegree: map<string, int>)
    ensures inDegree.Keys == Ids(steps)
    ensures forall x :: x in inDegree ==> inDegree[x] == 0
  {
    inDegree := map[];
    for i := 0 to |steps|
      invariant inDegree.Keys == Ids(steps[..i])
      invariant forall x :: x in inDegree ==> inDegree[x] == 0
    {
      inDegree := inDegree[steps[i].id := 0];
      assert steps[..i + 1] == steps[..i] + [steps[i]];
    }
    assert steps[..|steps|] == steps;
  }

  lemma PlanEntriesGrow(steps: seq<Step>, i: nat)
    requires i < |steps|
    ensures PlanEntries(steps[..i + 1]) == PlanEntries(steps[..i]) + StepEntries(steps[i].id, steps[i].dependsOn)
  {
    assert steps[..i + 1][..i] == steps[..i];
  }

  method CountDependencies(steps: seq<Step>)
    returns (unknown: Option<(string, string)>, inDegree: map<string, int>, children: map<string, seq<string>>)
    ensures unknown.None? <==> KnownDependencies(steps)
    ensures unknown.Some? ==> NamesUnknown(steps, unknown.value.0, unknown.value.1)
    ensures unknown.None? ==> inDegree.Keys == Ids(steps)
    ensures unknown.None? ==>
              CountsMatch(PlanEntries(steps), {}, inDegree) && ChildrenMatch(PlanEntries(steps), children)
  {
    inDegree := ZeroDegrees(steps);
    unknown, children := None, map[];
    ghost var seen: Entries := [];
    for i := 0 to |steps|
      invariant inDegree.Keys == Ids(steps) && seen == PlanEntries(steps[..i])
      invariant forall k, d :: 0 <= k < i && d in steps[k].dependsOn ==> d in Ids(steps)
      invariant CountsMatch(seen, {}, inDegree) && ChildrenMatch(seen, children)
    {
      var missing;
      missing, inDegree, children := CountStep(steps[i], inDegree, children, seen);
      if missing.Some? {
        unknown := Some((steps[i].id, missing.value));
        return;
      }
      PlanEntriesGrow(steps, i);
      seen := seen + StepEntries(steps[i].id, steps[i].dependsOn);
    }
    assert steps[..|steps|] == steps;
  }

  /** `id` is the first step with an unknown dependency, and `dep` the first unknown one of it. */
  ghost predicate NamesUnknown(steps: seq<Step>, id: string, dep: string) {
    exists i :: 0 <= i < |steps| && steps[i].id == id && IsFirstUnknown(steps[i].dependsOn, Ids(steps), dep) &&
      forall k, d :: 0 <= k < i && d in steps[k].dependsOn ==> d in Ids(steps)
  }

  /** What draining one level needs to know of the levels placed before, when it is to keep counters and order. */
  ghost predicate LevelReady(entries: Entries, placed: seq<string>, queue: seq<string>, degrees: map<string, int>) {
    CountsMatch(entries, Elements(placed), degrees) && Releasing(entries, placed, queue) &&
    forall x :: x in placed + queue ==> x in degrees && degrees[x] <= 0
  }

  /** Draining is under way: `queue[..i]` is finished, and `next` is released. */
  ghost predicate Draining(entries: Entries, placed: seq<string>, queue: seq<string>, i: nat, next: seq<string>,
                           inDegree: map<string, int>)
    requires i <= |queue|
  {
    CountsMatch(entries, Elements(placed + queue[..i]), inDegree) &&
    Releasing(entries, placed + queue[..i], queue[i..] + next)
  }

  /** Released steps are new: their counters were positive before the level. */
  lemma ReleasedAreNew(placed: seq<string>, queue: seq<string>, next: seq<string>, degrees: map<string, int>,
                       after: map<string, int>, released: seq<string>)
    requires Distinct(placed + queue + next) && Released(degrees, after, next + released)
    requires forall x :: x in placed + queue ==> x in degrees && degrees[x] <= 0
    ensures Distinct(placed + queue + next + released)
  {
    DistinctParts(next, released);
    forall x | x in released ensures x !in placed + queue + next {
      assert x in next + released && x !in placed + queue;
      assert x in Elements(released);
    }
    DistinctAppend(placed + queue + next, released);
  }

  /** One more step of the level is finished and releases `released`. */
  lemma DrainOne(entries: Entries, placed: seq<string>, queue: seq<string>, i: nat, next: seq<string>,
                 degrees: map<string, int>, before: map<string, int>, after: map<string, int>,
                 released: seq<string>, last: seq<nat>)
    requires i < |queue| && LevelReady(entries, placed, queue, degrees)
    requires Draining(entries, placed, queue, i, next, before) && before.Keys == after.Keys
    requires Released(degrees, after, next + released)
    requires forall x :: x in after ==> after[x] == before[x] - multiset(Targets(entries, queue[i]))[x]
    requires LastOccurrences(Targets(entries, queue[i]), released, last, after)
    ensures Draining(entries, placed, queue, i + 1, next + released, after)
  {
    var done, current, rest := placed + queue[..i], queue[i], queue[i + 1..] + next;
    assert queue[i..] + next == [current] + rest;
    assert placed + queue[..i + 1] == done + [current];
    assert done + ([current] + rest) == placed + queue + next;
    assert rest + released == queue[i + 1..] + (next + released);
    DrainCurrent(entries, done, current, rest, before, after);
    ReleasedAreNew(placed, queue, next, degrees, after, released);
    ReleaseCounted(entries, done, current, rest, released, last, after);
  }

  lemma DrainCurrent(entries: Entries, done: seq<string>, current: string, rest: seq<string>,
                     before: map<string, int>, after: map<string, int>)
    requires Distinct(done + ([current] + rest)) && CountsMatch(entries, Elements(done), before)
    requires before.Keys == after.Keys
    requires forall x :: x in after ==> after[x] == before[x] - multiset(Targets(entries, current))[x]
    ensures CountsMatch(entries, Elements(done) + {current}, after)
    ensures Elements(done + [current]) == Elements(done) + {current}
  {
    DistinctParts(done, [current] + rest);
    assert current in Elements([current] + rest);
    CountsAfter(entries, Elements(done), current, before, after);
  }

  /** Release the children of every step of one level. */
  method DrainLevel(queue: seq<string>, degrees: map<string, int>, children: map<string, seq<string>>,
                    ghost entries: Entries, ghost placed: seq<string>)
    returns (inDegree: map<string, int>, next: seq<string>)
    requires ChildrenMatch(entries, children) && ChildrenCounted(children, degrees)
    ensures Released(degrees, inDegree, next)
    ensures LevelReady(entries, placed, queue, degrees) ==>
              CountsMatch(entries, Elements(placed + queue), inDegree) && Releasing(entries, placed + queue, next)
  {
    inDegree, next := degrees, [];
    ghost var ready := LevelReady(entries, placed, queue, degrees);
    assert placed + queue[..0] == placed && queue[0..] + [] == queue;
    for i := 0 to |queue|
      invariant Released(degrees, inDegree, next)
      invariant ready ==> Draining(entries, placed, queue, i, next, inDegree)
    {
      ghost var before, prior := inDegree, next;
      ghost var released, last;
      inDegree, next, released, last := ReleaseChildren(ChildrenOf(children, queue[i]), inDegree, next, degrees);
      if ready {
        DrainOne(entries, placed, queue, i, prior, degrees, before, inDegree, released, last);
      }
    }
    assert queue[..|queue|] == queue && queue[|queue|..] + next == next;
  }

  /** The state of the level loop, for a plan whose step ids are unique. */
  ghost predicate LevelsInvariant(steps: seq<Step>, levels: seq<seq<string>>, queue: seq<string>,
                                  inDegree: map<string, int>) {
    var done := Elements(Flatten(levels));
    inDegree.Keys == Ids(steps) && done <= Ids(steps) &&
    CountsMatch(PlanEntries(steps), done, inDegree) &&
    Distinct(Flatten(levels) + queue) &&
    (forall x :: x in done ==> inDegree[x] == 0) &&
    (forall x :: x in queue <==> x in inDegree && x !in done && inDegree[x] == 0) &&
    LevelsSoFar(steps, levels) && Releasing(PlanEntries(steps), Flatten(levels), queue) &&
    (levels != [] ==> forall x :: x in queue ==> WaitsForPrevious(steps, levels, |levels|, x))
  }

  ghost predicate LevelsSoFar(steps: seq<Step>, levels: seq<seq<string>>) {
    (forall k :: 0 <= k < |levels| ==> levels[k] != []) &&
    (forall k, x :: 0 <= k < |levels| && x in levels[k] ==> DependenciesIn(steps, x, Flatten(levels[..k]))) &&
    forall k, x {:trigger WaitsForPrevious(steps, levels, k, x)} ::
      0 < k < |levels| && x in levels[k] ==> WaitsForPrevious(steps, levels, k, x)
  }

  lemma ExtendLevels(steps: seq<Step>, levels: seq<seq<string>>, queue: seq<string>, inDegree: map<string, int>)
    requires LevelsInvariant(steps, levels, queue, inDegree) && queue != []
    ensures LevelsSoFar(steps, levels + [queue])
  {
    var more := levels + [queue];
    var n := |levels|;
    forall k, x | 0 <= k < |more| && x in more[k] ensures DependenciesIn(steps, x, Flatten(more[..k])) {
      assert more[..k] == levels[..k];
      if k == n {
        assert levels[..n] == levels;
        RemainingZero(PlanEntries(steps), Elements(Flatten(levels)), x);
        PlanEntriesAreEdges(steps);
        assert forall e :: e in EdgesOf(PlanEntries(steps)) ==> e in PlanEntries(steps);
      }
    }
    forall k, x | 0 < k < |more| && x in more[k] ensures WaitsForPrevious(steps, more, k, x) {
      assert more[k - 1] == levels[k - 1];
      assert WaitsForPrevious(steps, levels, k, x);
    }
  }

  /** A step released by draining `queue` was waiting for a member of `queue` and for nothing unfinished. */
  lemma ReleasedWaits(steps: seq<Step>, done: set<string>, queue: seq<string>, x: string)
    requires Remaining(PlanEntries(steps), done, x) > 0
    requires Remaining(PlanEntries(steps), done + Elements(queue), x) == 0
    ensures exists d :: d in queue && (d, x) in DependencyEdges(steps)
  {
    RemainingZero(PlanEntries(steps), done, x);
    RemainingZero(PlanEntries(steps), done + Elements(queue), x);
    PlanEntriesAreEdges(steps);
    var a :| (a, x) in PlanEntries(steps) && a !in done;
    assert a in queue && (a, x) in EdgesOf(PlanEntries(steps));
  }

  /** One turn of the level loop: the drained level is appended and the released steps queue up. */
  lemma NextLevel(steps: seq<Step>, levels: seq<seq<string>>, queue: seq<string>,
                  before: map<string, int>, after: map<string, int>, next: seq<string>)
    requires LevelsInvariant(steps, levels, queue, before) && queue != []
    requires Released(before, after, next)
    requires CountsMatch(PlanEntries(steps), Elements(Flatten(levels) + queue), after)
    requires Releasing(PlanEntries(steps), Flatten(levels) + queue, next)
    ensures LevelsInvariant(steps, levels + [queue], next, after)
  {
    var more := levels + [queue];
    assert more[..|levels|] == levels;
    assert Flatten(more) == Flatten(levels) + queue;
    var done, done' := Elements(Flatten(levels)), Elements(Flatten(more));
    assert done' == done + Elements(queue);
    ExtendLevels(steps, levels, queue, before);
    forall x | x in before
      ensures x in done' ==> after[x] == 0
      ensures x in next <==> x !in done' && after[x] == 0
    {
      RemainingShrinks(PlanEntries(steps), done, done', x);
    }
    forall x | x in next ensures WaitsForPrevious(steps, more, |more|, x) {
      ReleasedWaits(steps, done, queue, x);
    }
    assert Distinct(Flatten(more));
    DistinctAppend(Flatten(more), next);
  }

  lemma StartLevels(steps: seq<Step>, queue: seq<string>, inDegree: map<string, int>)
    requires UniqueIds(steps) && inDegree.Keys == Ids(steps) && CountsMatch(PlanEntries(steps), {}, inDegree)
    requires Distinct(queue) && forall x :: x in queue <==> x in inDegree && inDegree[x] == 0
    ensures LevelsInvariant(steps, [], queue, inDegree)
  {
    assert Elements(Flatten([])) == {};
    forall e | e in PlanEntries(steps) ensures e.1 !in queue {
      RemainingZero(PlanEntries(steps), {}, e.1);
      assert (e.0, e.1) in PlanEntries(steps);
    }
    StartReleasing(PlanEntries(steps), queue);
    assert Flatten([]) + queue == queue;
  }

  /** Steps never placed all keep an unplaced dependency, so they hold a cycle. */
  lemma LeftoverSteps(steps: seq<Step>, levels: seq<seq<string>>, inDegree: map<string, int>)
    requires KnownDependencies(steps) && LevelsInvariant(steps, levels, [], inDegree)
    requires Elements(Flatten(levels)) != Ids(steps)
    ensures HasCycle(DependencyEdges(steps))
  {
    var done := Elements(Flatten(levels));
    var leftover := Ids(steps) - done;
    PlanEntriesAreEdges(steps);
    forall x | x in leftover ensures HasPredecessorIn(DependencyEdges(steps), leftover, x) {
      RemainingZero(PlanEntries(steps), done, x);
      var a :| (a, x) in PlanEntries(steps) && a !in done;
      assert (a, x) in EdgesOf(PlanEntries(steps));
    }
    assert Ids(steps) == done + leftover;
    LeftoverHasCycle(DependencyEdges(steps), leftover);
  }

  /** When the queue runs dry, either everything is placed and layered or the leftover holds a cycle. */
  lemma FinishLevels(steps: seq<Step>, levels: seq<seq<string>>, inDegree: map<string, int>)
    requires UniqueIds(steps) && KnownDependencies(steps) && LevelsInvariant(steps, levels, [], inDegree)
    ensures |Flatten(levels)| == |steps| ==> IsLayering(steps, levels) && !HasCycle(DependencyEdges(steps))
    ensures ReleaseOrder(PlanEntries(steps), Flatten(levels))
    ensures |Flatten(levels)| != |steps| ==> HasCycle(DependencyEdges(steps))
  {
    var done := Elements(Flatten(levels));
    assert Flatten(levels) + [] == Flatten(levels);
    DistinctParts(Flatten(levels), []);
    DistinctSize(Flatten(levels));
    IdsSize(steps);
    SubsetSize(done, Ids(steps));
    if done != Ids(steps) {
      LeftoverSteps(steps, levels, inDegree);
    } else {
      assert forall x :: x in Ids(steps) <==> x in done;
      ScheduleForbidsCycle(steps, levels);
    }
  }

  lemma {:induction false} IdsSize(steps: seq<Step>)
    requires UniqueIds(steps)
    ensures |Ids(steps)| == |steps|
  {
    if steps == [] {
    } else {
      var front, last := steps[..|steps| - 1], steps[|steps| - 1];
      IdsSize(front);
      assert Ids(steps) == Ids(front) + {last.id};
    }
  }

  /** The ids of the steps, in plan order. */
  function StepIds(steps: seq<Step>): seq<string> {
    seq(|steps|, i requires 0 <= i < |steps| => steps[i].id)
  }

  /**
   The order inside the batches: the first batch stands in plan order, and any other step in the order in which the
   last of its dependencies was drained, and for one such dependency in plan order.
   */
  ghost predicate InPlanOrder(steps: seq<Step>, levels: seq<seq<string>>) {
    (levels != [] ==> forall x, y :: Before(levels[0], x, y) ==> Before(StepIds(steps), x, y)) &&
    ReleaseOrder(PlanEntries(steps), Flatten(levels))
  }

  /** The steps without dependencies, in plan order. */
  method InitialQueue(steps: seq<Step>, inDegree: map<string, int>) returns (queue: seq<string>)
    requires inDegree.Keys == Ids(steps)
    ensures forall x :: x in queue <==> x in inDegree && inDegree[x] == 0
    ensures UniqueIds(steps) ==> Distinct(queue)
    ensures forall x, y :: Before(queue, x, y) ==> Before(StepIds(steps), x, y)
  {
    queue := [];
    for i := 0 to |steps|
      invariant forall x :: x in queue <==> x in Ids(steps[..i]) && inDegree[x] == 0
      invariant UniqueIds(steps) ==> Distinct(queue)
      invariant forall x, y :: Before(queue, x, y) ==> Before(StepIds(steps[..i]), x, y)
    {
      assert steps[..i + 1] == steps[..i] + [steps[i]];
      QueueGrows(steps, i, queue);
      if inDegree[steps[i].id] == 0 {
        queue := queue + [steps[i].id];
      }
    }
    assert steps[..|steps|] == steps;
  }

  lemma QueueGrows(steps: seq<Step>, i: nat, queue: seq<string>)
    requires i < |steps| && (forall x :: x in queue ==> x in Ids(steps[..i]))
    requires forall x, y :: Before(queue, x, y) ==> Before(StepIds(steps[..i]), x, y)
    ensures forall x, y :: Before(queue, x, y) ==> Before(StepIds(steps[..i + 1]), x, y)
    ensures forall x, y :: Before(queue + [steps[i].id], x, y) ==> Before(StepIds(steps[..i + 1]), x, y)
  {
    var ids, id := StepIds(steps[..i]), steps[i].id;
    assert StepIds(steps[..i + 1]) == ids + [id];
    forall x, y | Before(queue, x, y) ensures Before(ids + [id], x, y) {
      BeforeStays(ids, [id], x, y);
    }
    forall x, y | Before(queue + [id], x, y) ensures Before(ids + [id], x, y) {
      BeforeLast(queue, id, x, y);
      if !Before(queue, x, y) {
        var s :| s in steps[..i] && s.id == x;
        var j :| 0 <= j < i && steps[..i][j] == s;
        assert ids[j] == x;
        BeforeAcross(ids, [id], x, y);
      }
    }
  }

  lemma QueueIsReady(steps: seq<Step>, levels: seq<seq<string>>, queue: seq<string>, inDegree: map<string, int>)
    requires LevelsInvariant(steps, levels, queue, inDegree)
    ensures LevelReady(PlanEntries(steps), Flatten(levels), queue, inDegree)
  {
    forall x | x in Flatten(levels) + queue ensures x in inDegree && inDegree[x] <= 0 {
      assert x in Flatten(levels) ==> x in Elements(Flatten(levels));
    }
  }

  /** Drain the queue level by level until nothing more is released. */
  method DrainLevels(steps: seq<Step>, roots: seq<string>, degrees: map<string, int>,
                     children: map<string, seq<string>>)
    returns (levels: seq<seq<string>>, visited: nat, ghost inDegree: map<string, int>)
    requires degrees.Keys == Ids(steps) && ChildrenMatch(PlanEntries(steps), children) &&
             ChildrenCounted(children, degrees)
    requires UniqueIds(steps) ==> LevelsInvariant(steps, [], roots, degrees)
    ensures visited == |Flatten(levels)|
    ensures UniqueIds(steps) ==> LevelsInvariant(steps, levels, [], inDegree)
    ensures if roots == [] then levels == [] else levels != [] && levels[0] == roots
  {
    levels, visited := [], 0;
    var queue, counters := roots, degrees;
    while |queue| > 0
      invariant counters.Keys == Ids(steps)
      invariant visited == |Flatten(levels)|
      invariant UniqueIds(steps) ==> LevelsInvariant(steps, levels, queue, counters)
      invariant if levels == [] then queue == roots else levels[0] == roots && roots != []
      decreases Positive(counters), |queue|
    {
      ghost var before := counters;
      var next;
      counters, next := DrainLevel(queue, counters, children, PlanEntries(steps), Flatten(levels));
      if UniqueIds(steps) {
        QueueIsReady(steps, levels, queue, before);
        NextLevel(steps, levels, queue, before, counters, next);
      }
      if next != [] {
        assert next[0] in Positive(before) && next[0] !in Positive(counters);
      }
      assert (levels + [queue])[..|levels|] == levels;
      visited, levels, queue := visited + |queue|, levels + [queue], next;
    }
    inDegree := counters;
  }

  /**
   Group steps into execution batches. For unique ids the outcome is exact: a cycle is reported
   only when there is one, and otherwise batch `k` holds the steps whose longest dependency chain
   has `k` edges. Repeated ids are not excluded here; the plan check below does that.
   */
  method PlanExecutionBatches(steps: seq<Step>) returns (r: Batching)
    ensures r.UnknownDependency? <==> !KnownDependencies(steps)
    ensures r.UnknownDependency? ==> NamesUnknown(steps, r.stepId, r.dependency)
    ensures UniqueIds(steps) && KnownDependencies(steps) ==> (r.DependencyCycle? <==> HasCycle(DependencyEdges(steps)))
    ensures UniqueIds(steps) && r.Batches? ==> IsLayering(steps, r.levels)
    ensures UniqueIds(steps) && r.Batches? ==> InPlanOrder(steps, r.levels)
    ensures r.Batches? ==> |Flatten(r.levels)| == |steps|
  {
    var unknown, inDegree, children := CountDependencies(steps);
    if unknown.Some? {
      return UnknownDependency(unknown.value.0, unknown.value.1);
    }
    ChildrenAreSteps(steps, inDegree, children);
    var queue := InitialQueue(steps, inDegree);
    if UniqueIds(steps) {
      StartLevels(steps, queue, inDegree);
    }
    ghost var remaining;
    var levels, visited;
    levels, visited, remaining := DrainLevels(steps, queue, inDegree, children);
    if UniqueIds(steps) {
      FinishLevels(steps, levels, remaining);
    }
    r := if visited != |steps| then DependencyCycle else Batches(levels);
  }

  lemma ChildrenAreSteps(steps: seq<Step>, inDegree: map<string, int>, children: map<string, seq<string>>)
    requires inDegree.Keys == Ids(steps) && ChildrenMatch(PlanEntries(steps), children)
    ensures ChildrenCounted(children, inDegree)
  {
    PlanEntriesAreEdges(steps);
    forall a, c | c in ChildrenOf(children, a) ensures c in inDegree {
      TargetsAreEntries(PlanEntries(steps), a);
      assert (a, c) in EdgesOf(PlanEntries(steps));
    }
  }

  // ----- validateSubtaskPlan -----

  datatype PlanError = PlanInvalid | PlanCycle

  /** The characters that trimming removes (ECMAScript white space and line terminators). */
  predicate IsTrimmed(c: char) {
    '\U{0009}' <= c <= '\U{000D}' || c == ' ' || c == '\U{00A0}' || c == '\U{1680}' ||
    '\U{2000}' <= c <= '\U{200A}' || c == '\U{2028}' || c == '\U{2029}' || c == '\U{202F}' ||
    c == '\U{205F}' || c == '\U{3000}' || c == '\U{FEFF}'
  }

  predicate IsBlank(s: string) {
    forall c :: c in s ==> IsTrimmed(c)
  }

  function TrimStart(s: string): string {
    if s != [] && IsTrimmed(s[0]) then TrimStart(s[1..]) else s
  }

  function TrimEnd(s: string): string {
    if s != [] && IsTrimmed(s[|s| - 1]) then TrimEnd(s[..|s| - 1]) else s
  }

  /** The text without white space at its ends. */
  function Trim(s: string): string {
    TrimEnd(TrimStart(s))
  }

  lemma {:induction false} TrimStartRest(s: string)
    ensures IsBlank(s) <==> TrimStart(s) == []
    ensures TrimStart(s) != [] ==> !IsTrimmed(TrimStart(s)[0])
  {
    if s == [] || !IsTrimmed(s[0]) {
      assert s != [] ==> s[0] in s;
    } else {
      TrimStartRest(s[1..]);
      assert s == [s[0]] + s[1..];
    }
  }

  lemma {:induction false} TrimEndKeeps(s: string)
    requires s != [] && !IsTrimmed(s[0])
    ensures TrimEnd(s) != []
  {
    if !IsTrimmed(s[|s| - 1]) {
    } else {
      TrimEndKeeps(s[..|s| - 1]);
    }
  }

  /** Nothing is left of a text exactly when it is blank. */
  lemma TrimBlank(s: string)
    ensures |Trim(s)| == 0 <==> IsBlank(s)
  {
    TrimStartRest(s);
    if TrimStart(s) != [] {
      TrimEndKeeps(TrimStart(s));
    }
  }

  /** What the plan check demands of a plan apart from acyclicity. */
  predicate WellFormedPlan(steps: seq<Step>) {
    steps != [] && UniqueIds(steps) && KnownDependencies(steps) && forall s :: s in steps ==> WellFormedStep(s)
  }

  predicate WellFormedStep(s: Step) {
    !IsBlank(s.id) && !IsBlank(s.capability) && s.hasInput
  }

  /** Accepts exactly the well-formed acyclic plans, and names a cycle only when that is the one fault. */
  method ValidateSubtaskPlan(steps: seq<Step>) returns (error: Option<PlanError>)
    ensures error == if !WellFormedPlan(steps) then Some(PlanInvalid)
                     else if HasCycle(DependencyEdges(steps)) then Some(PlanCycle)
                     else None
  {
    if |steps| == 0 {
      return Some(PlanInvalid);
    }
    var ids: set<string> := {};
    for i := 0 to |steps|
      invariant ids == Ids(steps[..i])
      invariant UniqueIds(steps[..i])
      invariant forall s :: s in steps[..i] ==> WellFormedStep(s)
      invariant forall s, d :: s in steps[..i] && d in s.dependsOn ==> d in Ids(steps)
    {
      var step := steps[i];
      assert step in steps;
      TrimBlank(step.id);
      TrimBlank(step.capability);
      if |Trim(step.id)| == 0 {
        return Some(PlanInvalid);
      }
      if step.id in ids {
        ghost var twin :| twin in steps[..i] && twin.id == step.id;
        ghost var k :| 0 <= k < i && steps[..i][k] == twin;
        assert !UniqueIds(steps);
        return Some(PlanInvalid);
      }
      ids := ids + {step.id};
      assert steps[..i + 1] == steps[..i] + [step];
      if |Trim(step.capability)| == 0 || !step.hasInput {
        return Some(PlanInvalid);
      }
      for j := 0 to |step.dependsOn|
        invariant forall d :: d in step.dependsOn[..j] ==> d in Ids(steps)
      {
        var dep := step.dependsOn[j];
        if dep !in ids && !exists s :: s in steps && s.id == dep {
          assert dep in step.dependsOn && dep !in Ids(steps);
          return Some(PlanInvalid);
        }
      }
      assert step.dependsOn[..|step.dependsOn|] == step.dependsOn;
    }
    assert steps[..|steps|] == steps;
    var batching := PlanExecutionBatches(steps);
    error := if batching.DependencyCycle? then Some(PlanCycle) else None;
  }
}
