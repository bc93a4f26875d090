/** Batch-by-batch execution of a subtask plan, with results merged only at the end of each batch. */
module DagExecutor {
  import opened Graphs
  import opened PlanValidation
  import opened Wrappers

  datatype Status = Success | Error

  datatype StepResult = StepResult(status: Status, output: Option<string>, errorCode: Option<string>,
                                   requestMessageId: Option<string>)

  /** What a handler sees: the merged results of the finished batches and the parent link. */
  datatype Context = Context(stepResults: map<string, StepResult>, parentMessageId: Option<string>)

  type Handler = (Step, Context) -> StepResult

  datatype Start = Start(stepId: string, context: Context)

  /** `order` is the insertion order of the result map; `starts` records every handler call. */
  datatype Run = Run(results: map<string, StepResult>, order: seq<string>, messageIds: map<string, string>,
                     root: Option<string>, starts: seq<Start>)

  datatype Execution =
    | Rejected(error: PlanError)
    | Finished(run: Run, output: Option<string>)
    | Failed(failedStepId: string, run: Run, code: string)

  const EMPTY_RUN := Run(map[], [], map[], None, [])
  const STEP_FAILED := "WORKFLOW_STEP_FAILED"

  function StepOf(steps: seq<Step>, id: string): (s: Step)
    requires id in Ids(steps)
    ensures s in steps && s.id == id
  {
    var last := steps[|steps| - 1];
    if last.id == id then last else StepOf(steps[..|steps| - 1], id)
  }

  function FirstMessageId(deps: seq<string>, messageIds: map<string, string>): Option<string> {
    if deps == [] then None
    else if deps[0] in messageIds then Some(messageIds[deps[0]])
    else FirstMessageId(deps[1..], messageIds)
  }

  function ResolveParentMessageId(step: Step, run: Run): Option<string> {
    var known := FirstMessageId(step.dependsOn, run.messageIds);
    if known.Some? then known else run.root
  }

  function ContextFor(step: Step, run: Run): Context {
    Context(run.results, ResolveParentMessageId(step, run))
  }

  /** The handler call for one step of a batch, against the results of the earlier batches. */
  function Outcome(h: Handler, steps: seq<Step>, run: Run, id: string): StepResult
    requires id in Ids(steps)
  {
    h(StepOf(steps, id), ContextFor(StepOf(steps, id), run))
  }

  function StartBatch(steps: seq<Step>, run: Run, batch: seq<string>): Run
    requires forall x :: x in batch ==> x in Ids(steps)
  {
    run.(starts := run.starts +
           seq(|batch|, i requires 0 <= i < |batch| => Start(batch[i], ContextFor(StepOf(steps, batch[i]), run))))
  }

  function Record(run: Run, id: string, result: StepResult): Run {
    var merged := run.(results := run.results[id := result], order := run.order + [id]);
    if result.status.Error? || result.requestMessageId.None? then merged else
      var m := result.requestMessageId.value;
      merged.(messageIds := run.messageIds[id := m], root := if run.root.None? then Some(m) else run.root)
  }

  /** Merge the outcomes of a batch in order from position `j`; under fail-fast stop at the first error. */
  function MergeFrom(failFast: bool, run: Run, batch: seq<string>, outcomes: seq<StepResult>,
                     j: nat): (Run, Option<string>)
    requires j <= |batch| == |outcomes|
    decreases |batch| - j
  {
    if j == |batch| then (run, None) else
      var run' := Record(run, batch[j], outcomes[j]);
      if outcomes[j].status.Error? && failFast then (run', Some(batch[j]))
      else MergeFrom(failFast, run', batch, outcomes, j + 1)
  }

  function BatchOutcomes(h: Handler, steps: seq<Step>, run: Run, batch: seq<string>): (r: seq<StepResult>)
    requires forall x :: x in batch ==> x in Ids(steps)
    ensures |r| == |batch|
  {
    seq(|batch|, i requires 0 <= i < |batch| => Outcome(h, steps, run, batch[i]))
  }

  ghost predicate LevelsKnown(steps: seq<Step>, levels: seq<seq<string>>) {
    forall k, x :: 0 <= k < |levels| && x in levels[k] ==> x in Ids(steps)
  }

  /** Run the levels from level `k` on: the meaning of the executor for any list of levels. */
  ghost function RunFrom(h: Handler, steps: seq<Step>, failFast: bool, run: Run, levels: seq<seq<string>>,
                         k: nat): (Run, Option<string>)
    requires k <= |levels| && LevelsKnown(steps, levels)
    decreases |levels| - k
  {
    if k == |levels| then (run, None) else
      var (merged, failed) := MergeFrom(failFast, StartBatch(steps, run, levels[k]), levels[k],
                                        BatchOutcomes(h, steps, run, levels[k]), 0);
      if failed.Some? then (merged, failed) else RunFrom(h, steps, failFast, merged, levels, k + 1)
  }

  /** The whole run of a plan over a schedule: batches of any size, one step at a time included. */
  ghost function Execute(h: Handler, steps: seq<Step>, failFast: bool, levels: seq<seq<string>>): (Run, Option<string>)
    requires LevelsKnown(steps, levels)
  {
    RunFrom(h, steps, failFast, EMPTY_RUN, levels, 0)
  }

  lemma ScheduleLevelsKnown(steps: seq<Step>, levels: seq<seq<string>>)
    requires IsSchedule(steps, levels)
    ensures LevelsKnown(steps, levels)
  {
    forall k, x | 0 <= k < |levels| && x in levels[k] ensures x in Ids(steps) {
      FlattenMember(levels, x);
    }
  }

  // ----- executeDagPlan -----

  /** Call the handlers of one batch; each sees the results merged before the batch. */
  method RunBatch(h: Handler, steps: seq<Step>, run: Run, batch: seq<string>)
    returns (started: Run, outcomes: seq<StepResult>)
    requires forall x :: x in batch ==> x in Ids(steps)
    ensures started == StartBatch(steps, run, batch)
    ensures outcomes == BatchOutcomes(h, steps, run, batch)
  {
    outcomes := [];
    var starts := [];
    for i := 0 to |batch|
      invariant |outcomes| == |starts| == i
      invariant forall j :: 0 <= j < i ==> outcomes[j] == Outcome(h, steps, run, batch[j])
      invariant forall j :: 0 <= j < i ==> starts[j] == Start(batch[j], ContextFor(StepOf(steps, batch[j]), run))
    {
      var step := StepOf(steps, batch[i]);
      var context := ContextFor(step, run);
      starts := starts + [Start(step.id, context)];
      outcomes := outcomes + [h(step, context)];
    }
    started := run.(starts := run.starts + starts);
  }

  /**
   Validate, batch and run a plan. A rejected plan runs nothing; otherwise the run is `Execute`
   over a layering of the plan, and it fails only under fail-fast with a recorded error.
   */
  method ExecuteDagPlan(steps: seq<Step>, h: Handler, failFast: bool)
    returns (r: Execution, ghost levels: seq<seq<string>>)
    ensures r.Rejected? <==> !WellFormedPlan(steps) || HasCycle(DependencyEdges(steps))
    ensures r.Rejected? ==> r.error == if !WellFormedPlan(steps) then PlanInvalid else PlanCycle
    ensures !r.Rejected? ==> IsLayering(steps, levels) && LevelsKnown(steps, levels)
    ensures !r.Rejected? ==>
              (r.run, if r.Failed? then Some(r.failedStepId) else None) == Execute(h, steps, failFast, levels)
    ensures r.Failed? ==> r.failedStepId in r.run.results && failFast
    ensures r.Failed? ==>
              (var failure := r.run.results[r.failedStepId];
               failure.status.Error? && r.code == if failure.errorCode.Some? then failure.errorCode.value
                                                  else STEP_FAILED)
    ensures r.Finished? ==>
              r.run.order != [] && r.run.order[|r.run.order| - 1] in r.run.results &&
              r.output == r.run.results[r.run.order[|r.run.order| - 1]].output
  {
    levels := [];
    var invalid := ValidateSubtaskPlan(steps);
    if invalid.Some? {
      return Rejected(invalid.value), levels;
    }
    var batching := PlanExecutionBatches(steps);
    var batches := batching.levels;
    levels := batches;
    ScheduleLevelsKnown(steps, batches);
    var run := EMPTY_RUN;
    for k := 0 to |batches|
      invariant RunFrom(h, steps, failFast, run, batches, k) == Execute(h, steps, failFast, batches)
    {
      var batch := batches[k];
      var started, outcomes := RunBatch(h, steps, run, batch);
      var merged := started;
      for j := 0 to |batch|
        invariant MergeFrom(failFast, merged, batch, outcomes, j) == MergeFrom(failFast, started, batch, outcomes, 0)
      {
        var before := merged;
        merged := Record(merged, batch[j], outcomes[j]);
        if outcomes[j].status.Error? && failFast {
          assert MergeFrom(failFast, before, batch, outcomes, j) == (merged, Some(batch[j]));
          var code := if outcomes[j].errorCode.Some? then outcomes[j].errorCode.value else STEP_FAILED;
          return Failed(batch[j], merged, code), levels;
        }
      }
      run := merged;
    }
    CompletedRun(h, steps, failFast, batches);
    LastIsRecorded(steps, batches, run);
    r := Finished(run, run.results[run.order[|run.order| - 1]].output);
  }

  lemma LastIsRecorded(steps: seq<Step>, levels: seq<seq<string>>, run: Run)
    requires steps != [] && IsSchedule(steps, levels) && run.order == Flatten(levels) && run.results.Keys == Ids(steps)
    ensures run.order != [] && run.order[|run.order| - 1] in run.results
  {
    assert steps[0].id in Ids(steps);
  }

  // ----- What holds between batches -----

  /** `result` is what the handler gave for `x` in a context holding the final results of all dependencies of `x`. */
  ghost predicate ExplainedBy(h: Handler, steps: seq<Step>, results: map<string, StepResult>, x: string,
                              context: Context)
    requires x in Ids(steps) && x in results
  {
    results[x] == h(StepOf(steps, x), context) &&
    forall d :: d in StepOf(steps, x).dependsOn ==>
      d in results && d in context.stepResults && context.stepResults[d] == results[d]
  }

  /** The recorded result of `x` came out of a recorded handler call for `x`. */
  ghost predicate Explained(h: Handler, steps: seq<Step>, starts: seq<Start>, results: map<string, StepResult>,
                            x: string)
    requires x in Ids(steps) && x in results
  {
    exists s :: s in starts && s.stepId == x && ExplainedBy(h, steps, results, x, s.context)
  }

  /** `y` succeeded and sent a request. */
  predicate Sent(results: map<string, StepResult>, y: string) {
    y in results && results[y].status.Success? && results[y].requestMessageId.Some?
  }

  /** `parent` is the request of the first of the steps that succeeded and sent one; absent if none did. */
  ghost predicate IsFirstRequest(results: map<string, StepResult>, ids: seq<string>, parent: Option<string>) {
    if parent.None? then forall y :: y in ids ==> !Sent(results, y)
    else exists i :: FirstSentAt(results, ids, i) && results[ids[i]].requestMessageId == parent
  }

  ghost predicate FirstSentAt(results: map<string, StepResult>, ids: seq<string>, i: int) {
    0 <= i < |ids| && Sent(results, ids[i]) && forall j :: 0 <= j < i ==> !Sent(results, ids[j])
  }

  /**
   Which request is the parent of a step: that of its first listed dependency that sent one; without such a
   dependency that of the first step of the earlier batches, in schedule order, that sent one.
   */
  ghost predicate IsParent(results: map<string, StepResult>, dependsOn: seq<string>, earlier: seq<string>,
                           parent: Option<string>) {
    if exists d :: d in dependsOn && Sent(results, d) then parent.Some? && IsFirstRequest(results, dependsOn, parent)
    else IsFirstRequest(results, earlier, parent)
  }

  /** The request ids held are exactly those of the steps that sent one, and the root is the first of these. */
  ghost predicate ParentsRecorded(run: Run) {
    Elements(run.order) == run.results.Keys &&
    (forall y :: y in run.messageIds <==> Sent(run.results, y)) &&
    (forall y :: y in run.messageIds ==>
      y in run.results && Some(run.messageIds[y]) == run.results[y].requestMessageId) &&
    IsFirstRequest(run.results, run.order, run.root)
  }

  ghost predicate AllSucceeded(results: map<string, StepResult>) {
    forall y :: y in results ==> results[y].status.Success?
  }

  /**
   A handler call for a step of level `k`: it sees the results of exactly the earlier levels, all
   successes under fail-fast, and its parent is the one above.
   */
  ghost predicate StartOk(steps: seq<Step>, failFast: bool, levels: seq<seq<string>>, k: nat, s: Start)
    requires k < |levels|
  {
    s.stepId in levels[k] && s.stepId in Ids(steps) &&
    s.context.stepResults.Keys == Elements(Flatten(levels[..k])) &&
    (failFast ==> AllSucceeded(s.context.stepResults)) &&
    IsParent(s.context.stepResults, StepOf(steps, s.stepId).dependsOn, Flatten(levels[..k]), s.context.parentMessageId)
  }

  /** Every handler call is as above, and what it saw are results the run still holds. */
  ghost predicate StartsOk(steps: seq<Step>, failFast: bool, levels: seq<seq<string>>, starts: seq<Start>,
                           results: map<string, StepResult>) {
    forall s :: s in starts ==> StartedInLevel(steps, failFast, levels, s) && SubResults(s.context.stepResults, results)
  }

  ghost predicate SubResults(some: map<string, StepResult>, all: map<string, StepResult>) {
    forall y :: y in some ==> y in all && all[y] == some[y]
  }

  ghost predicate StartedInLevel(steps: seq<Step>, failFast: bool, levels: seq<seq<string>>, s: Start) {
    exists k: nat :: k < |levels| && StartOk(steps, failFast, levels, k, s)
  }

  ghost predicate StartOrder(starts: seq<Start>, ids: seq<string>) {
    |starts| == |ids| && forall i :: 0 <= i < |ids| ==> starts[i].stepId == ids[i]
  }

  /** `now` is `base` with the first `j` outcomes of the batch put in. */
  ghost predicate MergedUpTo(base: map<string, StepResult>, now: map<string, StepResult>,
                             batch: seq<string>, outcomes: seq<StepResult>, j: nat)
    requires j <= |batch| == |outcomes|
  {
    now.Keys == base.Keys + Elements(batch[..j]) &&
    SubResults(base, now) &&
    forall i :: 0 <= i < j ==> now[batch[i]] == outcomes[i]
  }

  lemma MergeOne(base: map<string, StepResult>, now: map<string, StepResult>, batch: seq<string>,
                 outcomes: seq<StepResult>, j: nat)
    requires j < |batch| == |outcomes| && Distinct(batch) && Elements(batch) !! base.Keys
    requires MergedUpTo(base, now, batch, outcomes, j)
    ensures batch[j] !in now
    ensures MergedUpTo(base, now[batch[j] := outcomes[j]], batch, outcomes, j + 1)
  {
    assert batch[..j + 1] == batch[..j] + [batch[j]];
    assert batch[j] in batch && batch[j] !in batch[..j];
  }

  /** The run after merging the first `j` outcomes of level `k`, whose handlers started from `base`. */
  ghost predicate MidBatch(h: Handler, steps: seq<Step>, failFast: bool, levels: seq<seq<string>>, k: nat,
                           base: Run, run: Run, j: nat)
    requires k < |levels| && j <= |levels[k]| && LevelsKnown(steps, levels)
  {
    var batch := levels[k];
    run.starts == StartBatch(steps, base, batch).starts &&
    run.order == base.order + batch[..j] &&
    MergedUpTo(base.results, run.results, batch, BatchOutcomes(h, steps, base, batch), j) &&
    ParentsRecorded(run)
  }

  /** The run between batches, when levels `0..k` are complete. */
  ghost predicate BetweenBatches(h: Handler, steps: seq<Step>, failFast: bool, levels: seq<seq<string>>, k: nat,
                                 run: Run)
    requires k <= |levels| && LevelsKnown(steps, levels)
  {
    run.order == Flatten(levels[..k]) &&
    run.results.Keys == Elements(run.order) &&
    (forall x :: x in run.results ==> x in Ids(steps) && Explained(h, steps, run.starts, run.results, x)) &&
    (failFast ==> AllSucceeded(run.results)) &&
    ParentsRecorded(run) &&
    StartsOk(steps, failFast, levels, run.starts, run.results) &&
    StartOrder(run.starts, run.order)
  }

  /** Recording a further step that sent a request leaves the first request the first, and finds the first there is. */
  lemma FirstRequestGrows(results: map<string, StepResult>, ids: seq<string>, root: Option<string>, x: string,
                          r: StepResult)
    requires Elements(ids) == results.Keys && x !in results && IsFirstRequest(results, ids, root)
    ensures var sent := r.status.Success? && r.requestMessageId.Some?;
            IsFirstRequest(results[x := r], ids + [x], if root.None? && sent then r.requestMessageId else root)
  {
    var results', ids' := results[x := r], ids + [x];
    assert forall y :: y in ids ==> y in Elements(ids);
    forall y | y in ids ensures Sent(results', y) <==> Sent(results, y) {
      assert y in results && y != x;
    }
    assert forall j :: 0 <= j < |ids| ==> ids'[j] == ids[j] && ids[j] in ids;
    if root.Some? {
      var i :| FirstSentAt(results, ids, i) && results[ids[i]].requestMessageId == root;
      assert FirstSentAt(results', ids', i);
    } else if Sent(results', x) {
      assert FirstSentAt(results', ids', |ids|);
    }
  }

  lemma RecordKeepsParents(run: Run, x: string, r: StepResult)
    requires ParentsRecorded(run) && x !in run.results
    ensures ParentsRecorded(Record(run, x, r))
  {
    FirstRequestGrows(run.results, run.order, run.root, x, r);
    var run' := Record(run, x, r);
    forall y ensures y in run'.messageIds <==> Sent(run'.results, y) {
      assert y in run.messageIds <==> Sent(run.results, y);
    }
    assert Elements(run'.order) == run'.results.Keys;
  }

  lemma {:induction false} FirstMessageIdIsFirst(deps: seq<string>, messageIds: map<string, string>,
                                                 results: map<string, StepResult>)
    requires forall y :: y in messageIds <==> Sent(results, y)
    requires forall y :: y in messageIds ==> y in results && Some(messageIds[y]) == results[y].requestMessageId
    ensures FirstMessageId(deps, messageIds).Some? <==> exists d :: d in deps && Sent(results, d)
    ensures IsFirstRequest(results, deps, FirstMessageId(deps, messageIds))
  {
    if deps == [] {
    } else if deps[0] in messageIds {
      assert FirstSentAt(results, deps, 0);
    } else {
      var rest := deps[1..];
      FirstMessageIdIsFirst(rest, messageIds, results);
      assert deps == [deps[0]] + rest;
      var first := FirstMessageId(rest, messageIds);
      if first.Some? {
        var i :| FirstSentAt(results, rest, i) && results[rest[i]].requestMessageId == first;
        assert FirstSentAt(results, deps, i + 1);
      }
    }
  }

  lemma LevelFresh(levels: seq<seq<string>>, k: nat)
    requires k < |levels| && Distinct(Flatten(levels))
    ensures Flatten(levels[..k + 1]) == Flatten(levels[..k]) + levels[k]
    ensures Distinct(Flatten(levels[..k]) + levels[k]) && Distinct(levels[k])
    ensures Elements(levels[k]) !! Elements(Flatten(levels[..k]))
  {
    FlattenSplit(levels, k);
    var front, rest := Flatten(levels[..k]) + levels[k], Flatten(levels[k + 1..]);
    assert Flatten(levels) == front + rest;
    DistinctParts(front, rest);
    DistinctParts(Flatten(levels[..k]), levels[k]);
    assert levels[..k + 1][..k] == levels[..k];
  }

  lemma MergeStep(h: Handler, steps: seq<Step>, failFast: bool, levels: seq<seq<string>>, k: nat, base: Run, run: Run,
                  j: nat)
    requires k < |levels| && LevelsKnown(steps, levels) && Distinct(levels[k]) &&
             Elements(levels[k]) !! base.results.Keys
    requires j < |levels[k]| && MidBatch(h, steps, failFast, levels, k, base, run, j)
    ensures MidBatch(h, steps, failFast, levels, k, base,
                     Record(run, levels[k][j], Outcome(h, steps, base, levels[k][j])), j + 1)
  {
    var batch := levels[k];
    assert batch[..j + 1] == batch[..j] + [batch[j]];
    MergeOne(base.results, run.results, batch, BatchOutcomes(h, steps, base, batch), j);
    RecordKeepsParents(run, batch[j], Outcome(h, steps, base, batch[j]));
  }

  /** All of the batch is merged, or the merge stopped at its first error, outcome `n`. */
  ghost predicate MergeEnded(h: Handler, steps: seq<Step>, failFast: bool, levels: seq<seq<string>>, k: nat,
                             base: Run, run: Run, failed: Option<string>, n: nat)
    requires k < |levels| && n <= |levels[k]| && LevelsKnown(steps, levels)
  {
    if n == |levels[k]| then failed.None? && MidBatch(h, steps, failFast, levels, k, base, run, n)
    else failFast && failed == Some(levels[k][n]) && BatchOutcomes(h, steps, base, levels[k])[n].status.Error? &&
         MidBatch(h, steps, failFast, levels, k, base, run, n + 1)
  }

  /** Merging the rest of a batch: either all of it, or up to and including its first error. */
  lemma {:induction false} MergeKeeps(h: Handler, steps: seq<Step>, failFast: bool, levels: seq<seq<string>>, k: nat,
                                      base: Run, run: Run, j: nat) returns (n: nat)
    requires k < |levels| && LevelsKnown(steps, levels) && Distinct(levels[k]) &&
             Elements(levels[k]) !! base.results.Keys
    requires j <= |levels[k]| && MidBatch(h, steps, failFast, levels, k, base, run, j)
    requires failFast ==> SucceedUpTo(BatchOutcomes(h, steps, base, levels[k]), j)
    ensures var outcomes := BatchOutcomes(h, steps, base, levels[k]);
            var (run', failed) := MergeFrom(failFast, run, levels[k], outcomes, j);
            j <= n <= |levels[k]| &&
            (failFast ==> SucceedUpTo(outcomes, n)) && MergeEnded(h, steps, failFast, levels, k, base, run', failed, n)
    decreases |levels[k]| - j
  {
    var batch := levels[k];
    var outcomes := BatchOutcomes(h, steps, base, batch);
    n := j;
    if j == |batch| {
    } else {
      var run' := Record(run, batch[j], outcomes[j]);
      MergeStep(h, steps, failFast, levels, k, base, run, j);
      if !(outcomes[j].status.Error? && failFast) {
        n := MergeKeeps(h, steps, failFast, levels, k, base, run', j + 1);
      }
    }
  }

  /** The first `n` handlers of the batch succeed. */
  ghost predicate SucceedUpTo(outcomes: seq<StepResult>, n: nat) {
    n <= |outcomes| && forall i :: 0 <= i < n ==> outcomes[i].status.Success?
  }

  lemma ResolvedIsParent(step: Step, run: Run)
    requires ParentsRecorded(run)
    ensures IsParent(run.results, step.dependsOn, run.order, ResolveParentMessageId(step, run))
  {
    FirstMessageIdIsFirst(step.dependsOn, run.messageIds, run.results);
  }

  lemma NewStartOk(h: Handler, steps: seq<Step>, failFast: bool, levels: seq<seq<string>>, k: nat, base: Run, i: nat)
    requires k < |levels| && LevelsKnown(steps, levels) && i < |levels[k]|
    requires BetweenBatches(h, steps, failFast, levels, k, base)
    ensures levels[k][i] in Ids(steps)
    ensures StartOk(steps, failFast, levels, k,
                    Start(levels[k][i], ContextFor(StepOf(steps, levels[k][i]), base)))
  {
    assert levels[k][i] in levels[k];
    ResolvedIsParent(StepOf(steps, levels[k][i]), base);
  }

  lemma StartsNext(h: Handler, steps: seq<Step>, failFast: bool, levels: seq<seq<string>>, k: nat, base: Run)
    requires k < |levels| && LevelsKnown(steps, levels)
    requires BetweenBatches(h, steps, failFast, levels, k, base)
    ensures StartsOk(steps, failFast, levels, StartBatch(steps, base, levels[k]).starts, base.results)
    ensures StartOrder(StartBatch(steps, base, levels[k]).starts, base.order + levels[k])
  {
    var starts := StartBatch(steps, base, levels[k]).starts;
    var n := |base.starts|;
    forall i | 0 <= i < |starts|
      ensures StartedInLevel(steps, failFast, levels, starts[i])
      ensures SubResults(starts[i].context.stepResults, base.results)
    {
      if i < n {
        assert starts[i] == base.starts[i] && base.starts[i] in base.starts;
      } else {
        NewStartOk(h, steps, failFast, levels, k, base, i - n);
        assert starts[i] == Start(levels[k][i - n], ContextFor(StepOf(steps, levels[k][i - n]), base));
      }
    }
  }

  lemma DependenciesEarlier(steps: seq<Step>, levels: seq<seq<string>>, k: nat, x: string)
    requires IsSchedule(steps, levels) && k < |levels| && x in levels[k] && x in Ids(steps)
    ensures forall d :: d in StepOf(steps, x).dependsOn ==> d in Flatten(levels[..k])
  {
    assert DependenciesIn(steps, x, Flatten(levels[..k]));
    forall d | d in StepOf(steps, x).dependsOn ensures d in Flatten(levels[..k]) {
      assert (d, x) in DependencyEdges(steps);
    }
  }

  lemma ExplainedStays(h: Handler, steps: seq<Step>, base: Run, run: Run, x: string)
    requires x in Ids(steps) && x in base.results && Explained(h, steps, base.starts, base.results, x)
    requires base.starts <= run.starts && SubResults(base.results, run.results)
    ensures x in run.results && Explained(h, steps, run.starts, run.results, x)
  {
    var s :| s in base.starts && s.stepId == x && ExplainedBy(h, steps, base.results, x, s.context);
    assert s in run.starts && ExplainedBy(h, steps, run.results, x, s.context);
  }

  lemma ExplainedNow(h: Handler, steps: seq<Step>, base: Run, run: Run, batch: seq<string>, i: nat)
    requires i < |batch| && forall y :: y in batch ==> y in Ids(steps)
    requires run.starts == StartBatch(steps, base, batch).starts && SubResults(base.results, run.results)
    requires batch[i] in run.results && run.results[batch[i]] == Outcome(h, steps, base, batch[i])
    requires forall d :: d in StepOf(steps, batch[i]).dependsOn ==> d in base.results
    ensures Explained(h, steps, run.starts, run.results, batch[i])
  {
    var s := Start(batch[i], ContextFor(StepOf(steps, batch[i]), base));
    assert run.starts[|base.starts| + i] == s;
    assert ExplainedBy(h, steps, run.results, batch[i], s.context);
  }

  lemma ExplainedNext(h: Handler, steps: seq<Step>, failFast: bool, levels: seq<seq<string>>, k: nat, base: Run,
                      run: Run, j: nat)
    requires IsSchedule(steps, levels) && k < |levels| && LevelsKnown(steps, levels) && Distinct(Flatten(levels))
    requires BetweenBatches(h, steps, failFast, levels, k, base)
    requires j <= |levels[k]| && MidBatch(h, steps, failFast, levels, k, base, run, j)
    ensures forall x :: x in run.results ==> x in Ids(steps) && Explained(h, steps, run.starts, run.results, x)
  {
    LevelFresh(levels, k);
    forall x | x in run.results ensures x in Ids(steps) && Explained(h, steps, run.starts, run.results, x) {
      if x in base.results {
        ExplainedStays(h, steps, base, run, x);
      } else {
        var i :| 0 <= i < j && levels[k][i] == x;
        DependenciesEarlier(steps, levels, k, x);
        assert run.results[levels[k][i]] == BatchOutcomes(h, steps, base, levels[k])[i];
        ExplainedNow(h, steps, base, run, levels[k], i);
      }
    }
  }

  lemma StartsKept(h: Handler, steps: seq<Step>, failFast: bool, levels: seq<seq<string>>, k: nat, base: Run,
                   run: Run, j: nat)
    requires k < |levels| && LevelsKnown(steps, levels) && Distinct(Flatten(levels))
    requires BetweenBatches(h, steps, failFast, levels, k, base)
    requires j <= |levels[k]| && MidBatch(h, steps, failFast, levels, k, base, run, j)
    ensures StartsOk(steps, failFast, levels, run.starts, run.results)
    ensures StartOrder(run.starts, base.order + levels[k])
  {
    LevelFresh(levels, k);
    StartsNext(h, steps, failFast, levels, k, base);
    assert SubResults(base.results, run.results);
  }

  /** The only error a merge can have added is the last outcome merged. */
  lemma MergedErrors(base: map<string, StepResult>, now: map<string, StepResult>, batch: seq<string>,
                     outcomes: seq<StepResult>, j: nat)
    requires j <= |batch| == |outcomes| && MergedUpTo(base, now, batch, outcomes, j)
    requires AllSucceeded(base) && SucceedUpTo(outcomes, if j > 0 then j - 1 else 0)
    ensures forall y :: y in now && now[y].status.Error? ==> j > 0 && y == batch[j - 1]
  {
    forall y | y in now && now[y].status.Error? ensures j > 0 && y == batch[j - 1] {
      var i :| 0 <= i < j && batch[i] == y;
      assert now[batch[i]] == outcomes[i];
    }
  }

  lemma NextBatch(h: Handler, steps: seq<Step>, failFast: bool, levels: seq<seq<string>>, k: nat, base: Run, run: Run)
    requires IsSchedule(steps, levels) && k < |levels| && LevelsKnown(steps, levels) && Distinct(Flatten(levels))
    requires BetweenBatches(h, steps, failFast, levels, k, base)
    requires MidBatch(h, steps, failFast, levels, k, base, run, |levels[k]|)
    requires failFast ==> SucceedUpTo(BatchOutcomes(h, steps, base, levels[k]), |levels[k]|)
    ensures BetweenBatches(h, steps, failFast, levels, k + 1, run)
  {
    LevelFresh(levels, k);
    assert levels[k][..|levels[k]|] == levels[k];
    StartsKept(h, steps, failFast, levels, k, base, run, |levels[k]|);
    ExplainedNext(h, steps, failFast, levels, k, base, run, |levels[k]|);
    assert run.order == Flatten(levels[..k + 1]);
    assert run.results.Keys == Elements(run.order);
    if failFast {
      MergedErrors(base.results, run.results, levels[k], BatchOutcomes(h, steps, base, levels[k]), |levels[k]|);
    }
  }

  /** The state in which a fail-fast run stops: level `k` was started as a whole and merged up to its first error. */
  ghost predicate StoppedAt(h: Handler, steps: seq<Step>, levels: seq<seq<string>>, k: nat, n: nat, run: Run,
                            failed: string)
    requires LevelsKnown(steps, levels)
  {
    k < |levels| && n < |levels[k]| && failed == levels[k][n] &&
    run.order == Flatten(levels[..k]) + levels[k][..n + 1] &&
    run.results.Keys == Elements(run.order) && failed in run.results &&
    (forall y :: y in run.results ==> (run.results[y].status.Error? <==> y == failed)) &&
    (forall x :: x in run.results ==> x in Ids(steps) && Explained(h, steps, run.starts, run.results, x)) &&
    StartsOk(steps, true, levels, run.starts, run.results) &&
    StartOrder(run.starts, Flatten(levels[..k + 1]))
  }

  lemma StopBatch(h: Handler, steps: seq<Step>, levels: seq<seq<string>>, k: nat, base: Run, run: Run, n: nat)
    requires IsSchedule(steps, levels) && k < |levels| && LevelsKnown(steps, levels) && Distinct(Flatten(levels))
    requires BetweenBatches(h, steps, true, levels, k, base)
    requires n < |levels[k]| && MidBatch(h, steps, true, levels, k, base, run, n + 1)
    requires SucceedUpTo(BatchOutcomes(h, steps, base, levels[k]), n)
    requires BatchOutcomes(h, steps, base, levels[k])[n].status.Error?
    ensures StoppedAt(h, steps, levels, k, n, run, levels[k][n])
  {
    LevelFresh(levels, k);
    StartsKept(h, steps, true, levels, k, base, run, n + 1);
    ExplainedNext(h, steps, true, levels, k, base, run, n + 1);
    MergedErrors(base.results, run.results, levels[k], BatchOutcomes(h, steps, base, levels[k]), n + 1);
    assert run.results[levels[k][n]] == BatchOutcomes(h, steps, base, levels[k])[n];
    assert run.results.Keys == Elements(run.order);
  }

  lemma StartMid(h: Handler, steps: seq<Step>, failFast: bool, levels: seq<seq<string>>, k: nat, base: Run)
    requires k < |levels| && LevelsKnown(steps, levels)
    requires BetweenBatches(h, steps, failFast, levels, k, base)
    ensures MidBatch(h, steps, failFast, levels, k, base, StartBatch(steps, base, levels[k]), 0)
  {
    assert levels[k][..0] == [];
  }

  /** Run one whole level: the next between-batches state, or the stopped state. */
  lemma LevelShape(h: Handler, steps: seq<Step>, failFast: bool, levels: seq<seq<string>>, k: nat, run: Run)
    returns (n: nat)
    requires IsSchedule(steps, levels) && k < |levels| && LevelsKnown(steps, levels) && Distinct(Flatten(levels))
    requires BetweenBatches(h, steps, failFast, levels, k, run)
    ensures var (merged, failed) := MergeFrom(failFast, StartBatch(steps, run, levels[k]), levels[k],
                                              BatchOutcomes(h, steps, run, levels[k]), 0);
            if failed.None? then BetweenBatches(h, steps, failFast, levels, k + 1, merged)
            else failFast && StoppedAt(h, steps, levels, k, n, merged, failed.value)
  {
    StartMid(h, steps, failFast, levels, k, run);
    var started := StartBatch(steps, run, levels[k]);
    LevelFresh(levels, k);
    n := MergeKeeps(h, steps, failFast, levels, k, run, started, 0);
    var merged := MergeFrom(failFast, started, levels[k], BatchOutcomes(h, steps, run, levels[k]), 0).0;
    if n < |levels[k]| {
      StopBatch(h, steps, levels, k, run, merged, n);
    } else {
      NextBatch(h, steps, failFast, levels, k, run, merged);
    }
  }

  /** Every run over a schedule completes all levels or stops in the state above. */
  lemma {:induction false} RunShape(h: Handler, steps: seq<Step>, failFast: bool, levels: seq<seq<string>>, k: nat,
                                    run: Run)
    returns (kf: nat, n: nat)
    requires IsSchedule(steps, levels) && k <= |levels| && LevelsKnown(steps, levels) && Distinct(Flatten(levels))
    requires BetweenBatches(h, steps, failFast, levels, k, run)
    ensures var (run', failed) := RunFrom(h, steps, failFast, run, levels, k);
            if failed.None? then BetweenBatches(h, steps, failFast, levels, |levels|, run')
            else failFast && StoppedAt(h, steps, levels, kf, n, run', failed.value)
    decreases |levels| - k
  {
    kf, n := k, 0;
    if k == |levels| {
    } else {
      n := LevelShape(h, steps, failFast, levels, k, run);
      var (merged, failed) := MergeFrom(failFast, StartBatch(steps, run, levels[k]), levels[k],
                                        BatchOutcomes(h, steps, run, levels[k]), 0);
      if failed.None? {
        kf, n := RunShape(h, steps, failFast, levels, k + 1, merged);
      }
    }
  }

  // ----- Theorems about whole runs -----

  ghost predicate ValidRunInput(steps: seq<Step>, levels: seq<seq<string>>) {
    UniqueIds(steps) && KnownDependencies(steps) && IsSchedule(steps, levels) && Distinct(Flatten(levels)) &&
    LevelsKnown(steps, levels)
  }

  lemma ExecuteShape(h: Handler, steps: seq<Step>, failFast: bool, levels: seq<seq<string>>) returns (k: nat, n: nat)
    requires ValidRunInput(steps, levels)
    ensures var (run, failed) := Execute(h, steps, failFast, levels);
            if failed.None? then BetweenBatches(h, steps, failFast, levels, |levels|, run)
            else failFast && StoppedAt(h, steps, levels, k, n, run, failed.value)
  {
    assert BetweenBatches(h, steps, failFast, levels, 0, EMPTY_RUN);
    k, n := RunShape(h, steps, failFast, levels, 0, EMPTY_RUN);
  }

  /** A run that is not stopped records every step once, in schedule order; without fail-fast no run is stopped. */
  lemma CompletedRun(h: Handler, steps: seq<Step>, failFast: bool, levels: seq<seq<string>>)
    requires ValidRunInput(steps, levels)
    ensures var (run, failed) := Execute(h, steps, failFast, levels);
            (failed.None? ==> run.results.Keys == Ids(steps) && run.order == Flatten(levels)) &&
            (failed.None? <==> !failFast || AllSucceeded(run.results))
  {
    var k, n := ExecuteShape(h, steps, failFast, levels);
    assert levels[..|levels|] == levels;
  }

  /**
   A stopped run has recorded all earlier levels and the failing level up to its first error, which is
   the only error recorded; the handlers of the whole failing level had been called.
   */
  lemma StoppedRun(h: Handler, steps: seq<Step>, failFast: bool, levels: seq<seq<string>>) returns (k: nat, n: nat)
    requires ValidRunInput(steps, levels)
    requires Execute(h, steps, failFast, levels).1.Some?
    ensures var (run, failed) := Execute(h, steps, failFast, levels);
            k < |levels| && n < |levels[k]| && failed.value == levels[k][n] &&
            run.order == Flatten(levels[..k]) + levels[k][..n + 1] &&
            StartOrder(run.starts, Flatten(levels[..k + 1])) &&
            forall y :: y in run.results ==> (run.results[y].status.Error? <==> y == failed.value)
  {
    k, n := ExecuteShape(h, steps, failFast, levels);
  }

  lemma StartsOfRun(h: Handler, steps: seq<Step>, failFast: bool, levels: seq<seq<string>>)
    requires ValidRunInput(steps, levels)
    ensures var run := Execute(h, steps, failFast, levels).0; StartsOk(steps, failFast, levels, run.starts, run.results)
  {
    var k, n := ExecuteShape(h, steps, failFast, levels);
  }

  /** Everything a scheduled step depends on, directly or not, lies in an earlier level. */
  lemma TransitiveDependenciesEarlier(steps: seq<Step>, levels: seq<seq<string>>, k: nat, p: seq<string>)
    requires IsSchedule(steps, levels) && KnownDependencies(steps) && Distinct(Flatten(levels)) && k < |levels|
    requires IsWalk(DependencyEdges(steps), p) && |p| > 1 && p[|p| - 1] in levels[k]
    ensures p[0] in Flatten(levels[..k])
  {
    FlattenMember(levels, p[|p| - 1]);
    LevelOfUnique(levels, k, p[|p| - 1]);
    var m := LevelMap(steps, levels);
    LevelOfUnique(levels, m[p[|p| - 1]], p[|p| - 1]);
    ScheduleLevelsGrow(steps, levels);
    LevelBoundsWalk(DependencyEdges(steps), m, p);
    FlattenMember(levels[..k], p[0]);
    assert levels[..k][m[p[0]]] == levels[m[p[0]]];
  }

  /**
   A handler starts only when everything its step depends on, directly or not, has a recorded result,
   and under fail-fast a success. It sees those results as they stay to the end of the run.
   */
  lemma StartsAfterDependencies(h: Handler, steps: seq<Step>, failFast: bool, levels: seq<seq<string>>, s: Start,
                                y: string)
    requires ValidRunInput(steps, levels)
    requires s in Execute(h, steps, failFast, levels).0.starts
    requires y != s.stepId && Reaches(DependencyEdges(steps), y, s.stepId)
    ensures y in s.context.stepResults
    ensures failFast ==> s.context.stepResults[y].status.Success?
    ensures var results := Execute(h, steps, failFast, levels).0.results;
            y in results && results[y] == s.context.stepResults[y]
  {
    StartsOfRun(h, steps, failFast, levels);
    assert StartedInLevel(steps, failFast, levels, s);
    var k: nat :| k < |levels| && StartOk(steps, failFast, levels, k, s);
    var p :| WalkFromTo(DependencyEdges(steps), p, y, s.stepId);
    TransitiveDependenciesEarlier(steps, levels, k, p);
  }

  /**
   The parent of every started step: the request of its first listed dependency that succeeded and sent one, else
   the request of the first step of the earlier batches, in schedule order, that did, and none exactly when none did.
   */
  lemma ParentExactly(h: Handler, steps: seq<Step>, failFast: bool, levels: seq<seq<string>>, s: Start)
    returns (k: nat)
    requires ValidRunInput(steps, levels)
    requires s in Execute(h, steps, failFast, levels).0.starts
    ensures k < |levels| && s.stepId in levels[k] && s.stepId in Ids(steps)
    ensures s.context.stepResults.Keys == Elements(Flatten(levels[..k]))
    ensures IsParent(s.context.stepResults, StepOf(steps, s.stepId).dependsOn, Flatten(levels[..k]),
                     s.context.parentMessageId)
  {
    StartsOfRun(h, steps, failFast, levels);
    assert StartedInLevel(steps, failFast, levels, s);
    k :| k < |levels| && StartOk(steps, failFast, levels, k, s);
  }

  /** Every recorded result is what the handler returned to the one recorded call for its step. */
  lemma ResultsAreReturned(h: Handler, steps: seq<Step>, failFast: bool, levels: seq<seq<string>>, s: Start)
    requires ValidRunInput(steps, levels)
    ensures var run := Execute(h, steps, failFast, levels).0;
            (forall x :: x in run.results ==> exists s :: s in run.starts && s.stepId == x) &&
            (s in run.starts && s.stepId in run.results ==>
              s.stepId in Ids(steps) && run.results[s.stepId] == h(StepOf(steps, s.stepId), s.context))
  {
    var run := Execute(h, steps, failFast, levels).0;
    ExecuteExplained(h, steps, failFast, levels);
    forall x | x in run.results ensures exists s :: s in run.starts && s.stepId == x {
      assert Explained(h, steps, run.starts, run.results, x);
    }
    if s in run.starts && s.stepId in run.results {
      assert Explained(h, steps, run.starts, run.results, s.stepId);
      var q :| q in run.starts && q.stepId == s.stepId && ExplainedBy(h, steps, run.results, s.stepId, q.context);
      var ids := StartsAreDistinct(h, steps, failFast, levels);
      StartedOnce(run.starts, ids, s, q);
    }
  }

  lemma StartedOnce(starts: seq<Start>, ids: seq<string>, s: Start, q: Start)
    requires StartOrder(starts, ids) && Distinct(ids) && s in starts && q in starts && s.stepId == q.stepId
    ensures s == q
  {
    var i :| 0 <= i < |starts| && starts[i] == s;
    var j :| 0 <= j < |starts| && starts[j] == q;
    assert ids[i] == ids[j];
  }

  lemma StartsAreDistinct(h: Handler, steps: seq<Step>, failFast: bool, levels: seq<seq<string>>)
    returns (ids: seq<string>)
    requires ValidRunInput(steps, levels)
    ensures StartOrder(Execute(h, steps, failFast, levels).0.starts, ids) && Distinct(ids)
  {
    var k, n := ExecuteShape(h, steps, failFast, levels);
    assert levels[..|levels|] == levels;
    var m := if Execute(h, steps, failFast, levels).1.None? then |levels| else k + 1;
    ids := Flatten(levels[..m]);
    if m < |levels| {
      FlattenSplit(levels, m);
      DistinctParts(ids, levels[m] + Flatten(levels[m + 1..]));
    }
  }

  /**
   A step started in the first level has no parent; any other parent is the request of a success in an earlier
   level.
   */
  lemma ParentFromEarlierLevel(h: Handler, steps: seq<Step>, failFast: bool, levels: seq<seq<string>>, s: Start)
    returns (k: nat, y: string)
    requires ValidRunInput(steps, levels)
    requires s in Execute(h, steps, failFast, levels).0.starts
    ensures k < |levels| && s.stepId in levels[k]
    ensures k == 0 ==> s.context.parentMessageId.None?
    ensures s.context.parentMessageId.Some? ==>
              var results := Execute(h, steps, failFast, levels).0.results;
              y in Flatten(levels[..k]) && y in results && results[y].status.Success? &&
              results[y].requestMessageId == s.context.parentMessageId
  {
    StartsOfRun(h, steps, failFast, levels);
    k := ParentExactly(h, steps, failFast, levels, s);
    y := "";
    var seen, ids := s.context.stepResults, Flatten(levels[..k]);
    assert levels[..0] == [];
    if s.context.parentMessageId.Some? {
      var from := if exists d :: d in StepOf(steps, s.stepId).dependsOn && Sent(seen, d)
                  then StepOf(steps, s.stepId).dependsOn else ids;
      var i :| FirstSentAt(seen, from, i) && seen[from[i]].requestMessageId == s.context.parentMessageId;
      y := from[i];
      assert y in Elements(ids);
    }
  }

  /** Links from the step that sent the parent request to the step started under it. */
  ghost function ParentLinks(run: Run): Edges {
    set s, y | s in run.starts && y in run.results &&
               s.context.parentMessageId.Some? && run.results[y].requestMessageId == s.context.parentMessageId
      :: (y, s.stepId)
  }

  ghost predicate DistinctRequestIds(results: map<string, StepResult>) {
    forall y, z :: y in results && z in results && results[y].requestMessageId.Some? && y != z ==>
      results[y].requestMessageId != results[z].requestMessageId
  }

  /** When no two steps share a request id, the parent links of a run form no cycle. */
  lemma ParentLinksAcyclic(h: Handler, steps: seq<Step>, failFast: bool, levels: seq<seq<string>>)
    requires ValidRunInput(steps, levels)
    requires DistinctRequestIds(Execute(h, steps, failFast, levels).0.results)
    ensures !HasCycle(ParentLinks(Execute(h, steps, failFast, levels).0))
  {
    var run := Execute(h, steps, failFast, levels).0;
    var m := LevelMap(steps, levels);
    forall e | e in ParentLinks(run) ensures e.0 in m && e.1 in m && m[e.0] < m[e.1] {
      var s, y :| s in run.starts && y in run.results && s.context.parentMessageId.Some? &&
                  run.results[y].requestMessageId == s.context.parentMessageId && e == (y, s.stepId);
      var k, z := ParentFromEarlierLevel(h, steps, failFast, levels, s);
      assert y == z;
      FlattenMember(levels[..k], y);
      var j :| 0 <= j < k && y in levels[..k][j];
      assert y in levels[j];
      FlattenMember(levels, y);
      FlattenMember(levels, s.stepId);
      LevelOfUnique(levels, j, y);
      LevelOfUnique(levels, m[y], y);
      LevelOfUnique(levels, k, s.stepId);
      LevelOfUnique(levels, m[s.stepId], s.stepId);
    }
    LevelForbidsCycle(ParentLinks(run), m);
  }

  // ----- Confluence -----

  /** A result without the identity of the request that produced it. */
  function Core(r: StepResult): StepResult {
    r.(requestMessageId := None)
  }

  lemma CoreMeans(r: StepResult, q: StepResult)
    ensures Core(r) == Core(q) <==> r.status == q.status && r.output == q.output && r.errorCode == q.errorCode
  {
  }

  /** The two contexts hold the same dependency results for the step, message ids aside. */
  ghost predicate SameDependencies(step: Step, a: Context, b: Context) {
    forall d :: d in step.dependsOn ==>
      d in a.stepResults && d in b.stepResults && Core(a.stepResults[d]) == Core(b.stepResults[d])
  }

  /** The handlers give the same result whenever step and dependency results agree, message ids aside. */
  ghost predicate AgreeModuloIds(a: Handler, b: Handler) {
    forall step, ca, cb :: SameDependencies(step, ca, cb) ==> Core(a(step, ca)) == Core(b(step, cb))
  }

  lemma {:induction false} SameCore(a: Handler, b: Handler, steps: seq<Step>, ra: map<string, StepResult>,
                                    rb: map<string, StepResult>, sa: seq<Start>, sb: seq<Start>,
                                    levels: seq<seq<string>>, k: nat, x: string)
    requires AgreeModuloIds(a, b) && IsSchedule(steps, levels) && LevelsKnown(steps, levels)
    requires forall y :: y in ra ==> y in Ids(steps) && Explained(a, steps, sa, ra, y)
    requires forall y :: y in rb ==> y in Ids(steps) && Explained(b, steps, sb, rb, y)
    requires k < |levels| && x in levels[k] && x in ra && x in rb
    ensures Core(ra[x]) == Core(rb[x])
    decreases k
  {
    var step := StepOf(steps, x);
    var s :| s in sa && s.stepId == x && ExplainedBy(a, steps, ra, x, s.context);
    var q :| q in sb && q.stepId == x && ExplainedBy(b, steps, rb, x, q.context);
    var ca, cb := s.context, q.context;
    DependenciesEarlier(steps, levels, k, x);
    forall d | d in step.dependsOn ensures Core(ca.stepResults[d]) == Core(cb.stepResults[d]) {
      FlattenMember(levels[..k], d);
      var j :| 0 <= j < k && d in levels[..k][j];
      SameCore(a, b, steps, ra, rb, sa, sb, levels, j, d);
    }
    assert SameDependencies(step, ca, cb);
  }

  lemma ExecuteExplained(h: Handler, steps: seq<Step>, failFast: bool, levels: seq<seq<string>>)
    requires ValidRunInput(steps, levels)
    ensures var run := Execute(h, steps, failFast, levels).0;
            forall y :: y in run.results ==> y in Ids(steps) && Explained(h, steps, run.starts, run.results, y)
  {
    var k, n := ExecuteShape(h, steps, failFast, levels);
  }

  /**
   Confluence. Two runs of one plan, over any two schedules and with handlers that agree on equal
   dependency results, record the same result for every step both of them record.
   */
  lemma Confluence(a: Handler, b: Handler, steps: seq<Step>, ffa: bool, ffb: bool, la: seq<seq<string>>,
                   lb: seq<seq<string>>, x: string)
    requires ValidRunInput(steps, la) && ValidRunInput(steps, lb) && AgreeModuloIds(a, b)
    requires x in Execute(a, steps, ffa, la).0.results && x in Execute(b, steps, ffb, lb).0.results
    ensures Core(Execute(a, steps, ffa, la).0.results[x]) == Core(Execute(b, steps, ffb, lb).0.results[x])
    ensures var r, q := Execute(a, steps, ffa, la).0.results[x], Execute(b, steps, ffb, lb).0.results[x];
            r.status == q.status && r.output == q.output && r.errorCode == q.errorCode
  {
    CoreMeans(Execute(a, steps, ffa, la).0.results[x], Execute(b, steps, ffb, lb).0.results[x]);
    ExecuteExplained(a, steps, ffa, la);
    ExecuteExplained(b, steps, ffb, lb);
    FlattenMember(la, x);
    var k :| 0 <= k < |la| && x in la[k];
    var ra, rb := Execute(a, steps, ffa, la).0, Execute(b, steps, ffb, lb).0;
    SameCore(a, b, steps, ra.results, rb.results, ra.starts, rb.starts, la, k, x);
  }

  /** Whether a fail-fast run is stopped does not depend on the schedule either. */
  lemma FailureIsConfluent(a: Handler, b: Handler, steps: seq<Step>, la: seq<seq<string>>, lb: seq<seq<string>>)
    requires ValidRunInput(steps, la) && ValidRunInput(steps, lb) && AgreeModuloIds(a, b)
    requires Execute(a, steps, true, la).1.Some?
    ensures Execute(b, steps, true, lb).1.Some?
  {
    var k, n := StoppedRun(a, steps, true, la);
    var (ra, failed) := Execute(a, steps, true, la);
    CompletedRun(b, steps, true, lb);
    assert failed.value in ra.results by {
      var k', n' := ExecuteShape(a, steps, true, la);
      assert failed.value in ra.order;
    }
    ExecuteExplained(a, steps, true, la);
    if Execute(b, steps, true, lb).1.None? {
      Confluence(a, b, steps, true, true, la, lb, failed.value);
      assert false;
    }
  }

  ghost predicate IsTopologicalOrder(steps: seq<Step>, order: seq<string>) {
    Distinct(order) && Elements(order) == Ids(steps) &&
    forall i :: 0 <= i < |order| ==> DependenciesIn(steps, order[i], order[..i])
  }

  function OneByOne(order: seq<string>): seq<seq<string>> {
    seq(|order|, i requires 0 <= i < |order| => [order[i]])
  }

  lemma {:induction false} FlattenOneByOne(order: seq<string>)
    ensures Flatten(OneByOne(order)) == order
  {
    if order == [] {
    } else {
      var front := order[..|order| - 1];
      FlattenOneByOne(front);
      assert OneByOne(order)[..|order| - 1] == OneByOne(front);
    }
  }

  /** A topological order, taken one step at a time, is a schedule. */
  lemma OneByOneIsSchedule(steps: seq<Step>, order: seq<string>)
    requires UniqueIds(steps) && KnownDependencies(steps) && IsTopologicalOrder(steps, order)
    ensures ValidRunInput(steps, OneByOne(order))
  {
    var levels := OneByOne(order);
    FlattenOneByOne(order);
    forall k, x | 0 <= k < |levels| && x in levels[k] ensures DependenciesIn(steps, x, Flatten(levels[..k])) {
      assert levels[..k] == OneByOne(order[..k]);
      FlattenOneByOne(order[..k]);
    }
    assert forall x :: x in Ids(steps) <==> x in Elements(order);
    ScheduleLevelsKnown(steps, levels);
  }

  /**
   The batched run of a plan over any layering ends with the same result map, message ids aside, as the
   one-step-at-a-time run over any topological order, whenever neither is stopped.
   */
  lemma BatchedEqualsSequential(a: Handler, b: Handler, steps: seq<Step>, ffa: bool, ffb: bool,
                                levels: seq<seq<string>>, order: seq<string>)
    requires ValidRunInput(steps, levels) && IsTopologicalOrder(steps, order) && AgreeModuloIds(a, b)
    ensures ValidRunInput(steps, OneByOne(order))
    ensures var (ra, fa) := Execute(a, steps, ffa, levels);
            var (rb, fb) := Execute(b, steps, ffb, OneByOne(order));
            fa.None? && fb.None? ==>
              ra.results.Keys == rb.results.Keys == Ids(steps) &&
              forall x :: x in Ids(steps) ==> Core(ra.results[x]) == Core(rb.results[x])
  {
    OneByOneIsSchedule(steps, order);
    var single := OneByOne(order);
    CompletedRun(a, steps, ffa, levels);
    CompletedRun(b, steps, ffb, single);
    var (ra, fa) := Execute(a, steps, ffa, levels);
    var (rb, fb) := Execute(b, steps, ffb, single);
    if fa.None? && fb.None? {
      forall x | x in Ids(steps) ensures Core(ra.results[x]) == Core(rb.results[x]) {
        Confluence(a, b, steps, ffa, ffb, levels, single, x);
      }
    }
  }
}
