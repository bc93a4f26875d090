/**
 The worklist behind both depth functions: labels are offered along edges, and a label that improves is recorded
 and queued. One mode keeps the larger label, the other the smaller one.
 */
module LabelWorklist {
  import opened Graphs

  /** Which of two labels a worklist keeps. */
  datatype Preference = Longest | Shortest {
    predicate Replaces(next: nat, existing: nat) {
      match this
      case Longest => next > existing
      case Shortest => next < existing
    }
  }

  // ----- What the labels mean -----

  /** A walk of `d` edges from a start to `x`. */
  ghost predicate StartWalk(g: Edges, starts: set<string>, p: seq<string>, x: string, d: nat) {
    IsWalk(g, p) && p[0] in starts && p[|p| - 1] == x && |p| == d + 1
  }

  ghost predicate Reachable(g: Edges, starts: set<string>, x: string) {
    exists p, d :: StartWalk(g, starts, p, x, d)
  }

  /** `d` is the length of the longest, respectively shortest, walk from a start to `x`. */
  ghost predicate BestDepth(mode: Preference, g: Edges, starts: set<string>, x: string, d: nat) {
    (exists p :: StartWalk(g, starts, p, x, d)) &&
    forall p, e :: StartWalk(g, starts, p, x, e) ==> !mode.Replaces(e, d)
  }

  /** A cycle passes through an agent that a start reaches. */
  ghost predicate CycleReachable(g: Edges, starts: set<string>) {
    exists c :: IsCycle(g, c) && Reachable(g, starts, c[0])
  }

  // ----- The worklist -----

  datatype Work = Work(queue: seq<(string, nat)>, head: nat, best: map<string, nat>)

  /** Offer the label `depth` to `kids[j..]`; each improvement is recorded and queued. */
  function Relax(mode: Preference, w: Work, kids: seq<string>, depth: nat, j: nat): Work
    requires j <= |kids|
    decreases |kids| - j
  {
    if j == |kids| then w
    else if kids[j] in w.best && !mode.Replaces(depth, w.best[kids[j]]) then Relax(mode, w, kids, depth, j + 1)
    else
      Relax(mode, w.(queue := w.queue + [(kids[j], depth)], best := w.best[kids[j] := depth]), kids, depth, j + 1)
  }

  function Kids(adjacency: map<string, seq<string>>, a: string): seq<string> {
    if a in adjacency then adjacency[a] else []
  }

  /** Process the queue entry at the head. */
  function Advance(mode: Preference, adjacency: map<string, seq<string>>, w: Work): Work
    requires w.head < |w.queue|
  {
    Relax(mode, w.(head := w.head + 1), Kids(adjacency, w.queue[w.head].0), w.queue[w.head].1 + 1, 0)
  }

  function Initial(starts: seq<string>): Work {
    Work(seq(|starts|, i requires 0 <= i < |starts| => (starts[i], 0)), 0, map a | a in starts :: 0)
  }

  /** The state after `n` turns, or earlier if the queue ran out. */
  function After(mode: Preference, adjacency: map<string, seq<string>>, w: Work, n: nat): Work
    decreases n
  {
    if n == 0 || w.head >= |w.queue| then w else After(mode, adjacency, Advance(mode, adjacency, w), n - 1)
  }

  ghost predicate AdjacencyOf(g: Edges, adjacency: map<string, seq<string>>) {
    forall a, b :: b in Kids(adjacency, a) <==> (a, b) in g
  }

  /** All targets of `a` carry labels no worse than `d + 1`. */
  ghost predicate Settled(mode: Preference, g: Edges, best: map<string, nat>, a: string, d: nat) {
    forall b :: (a, b) in g ==> Covered(mode, best, b, d + 1)
  }

  ghost predicate Witnessed(g: Edges, starts: set<string>, x: string, d: nat) {
    exists p :: StartWalk(g, starts, p, x, d)
  }

  /** Queue entries stand for walks and are no better than the labels; labels are queue entries. */
  ghost predicate LabelsOk(mode: Preference, g: Edges, starts: set<string>, queue: seq<(string, nat)>,
                           best: map<string, nat>) {
    (forall i :: 0 <= i < |queue| ==>
      Witnessed(g, starts, queue[i].0, queue[i].1) && Covered(mode, best, queue[i].0, queue[i].1)) &&
    (forall a {:trigger Queued(queue, a, best[a])} :: a in best ==> Queued(queue, a, best[a])) &&
    forall a :: a in starts ==> Covered(mode, best, a, 0)
  }

  ghost predicate Queued(queue: seq<(string, nat)>, a: string, d: nat) {
    exists i :: 0 <= i < |queue| && queue[i] == (a, d)
  }

  /** `x` carries a label no worse than `d`. */
  ghost predicate Covered(mode: Preference, best: map<string, nat>, x: string, d: nat) {
    x in best && !mode.Replaces(d, best[x])
  }

  ghost predicate SettledUpTo(mode: Preference, g: Edges, queue: seq<(string, nat)>, best: map<string, nat>, n: nat)
    requires n <= |queue|
  {
    forall i :: 0 <= i < n ==> Settled(mode, g, best, queue[i].0, queue[i].1)
  }

  ghost predicate WorkInvariant(mode: Preference, g: Edges, starts: set<string>, w: Work) {
    w.head <= |w.queue| && LabelsOk(mode, g, starts, w.queue, w.best) && SettledUpTo(mode, g, w.queue, w.best, w.head)
  }

  lemma InitialInvariant(mode: Preference, g: Edges, starts: seq<string>)
    ensures WorkInvariant(mode, g, Elements(starts), Initial(starts))
  {
    var w := Initial(starts);
    forall i | 0 <= i < |w.queue| ensures Witnessed(g, Elements(starts), w.queue[i].0, w.queue[i].1) {
      assert StartWalk(g, Elements(starts), [starts[i]], starts[i], 0);
    }
    forall a | a in w.best ensures Queued(w.queue, a, w.best[a]) {
      var i :| 0 <= i < |starts| && starts[i] == a;
      assert w.queue[i] == (a, 0);
    }
  }

  /** Labels only improve from `before` to `after`. */
  ghost predicate Improved(mode: Preference, before: map<string, nat>, after: map<string, nat>) {
    forall a :: a in before ==> Covered(mode, after, a, before[a])
  }

  /** One improvement keeps the labels in order. */
  lemma ImproveLabels(mode: Preference, g: Edges, starts: set<string>, queue: seq<(string, nat)>,
                      best: map<string, nat>, b: string, d: nat)
    requires LabelsOk(mode, g, starts, queue, best)
    requires !Covered(mode, best, b, d) && Witnessed(g, starts, b, d)
    ensures LabelsOk(mode, g, starts, queue + [(b, d)], best[b := d])
  {
    var queue', best' := queue + [(b, d)], best[b := d];
    forall i | 0 <= i < |queue'|
      ensures Witnessed(g, starts, queue'[i].0, queue'[i].1) && Covered(mode, best', queue'[i].0, queue'[i].1)
    {
      assert i < |queue| ==> queue'[i] == queue[i];
    }
    forall a | a in best' ensures Queued(queue', a, best'[a]) {
      if a == b {
        assert queue'[|queue|] == (b, d);
      } else {
        assert Queued(queue, a, best[a]);
        var i :| 0 <= i < |queue| && queue[i] == (a, best[a]);
        assert queue'[i] == (a, best[a]);
      }
    }
  }

  lemma {:induction false} RelaxKeeps(mode: Preference, g: Edges, starts: set<string>, w: Work, kids: seq<string>,
                                      d: nat, j: nat)
    requires j <= |kids| && LabelsOk(mode, g, starts, w.queue, w.best)
    requires forall i :: 0 <= i < |kids| ==> Witnessed(g, starts, kids[i], d)
    ensures var w' := Relax(mode, w, kids, d, j); LabelsOk(mode, g, starts, w'.queue, w'.best)
    decreases |kids| - j
  {
    if j == |kids| {
    } else {
      if Covered(mode, w.best, kids[j], d) {
        RelaxKeeps(mode, g, starts, w, kids, d, j + 1);
      } else {
        ImproveLabels(mode, g, starts, w.queue, w.best, kids[j], d);
        RelaxKeeps(mode, g, starts, w.(queue := w.queue + [(kids[j], d)], best := w.best[kids[j] := d]), kids, d,
                   j + 1);
      }
    }
  }

  lemma ImprovedTransitive(mode: Preference, a: map<string, nat>, b: map<string, nat>, c: map<string, nat>)
    requires Improved(mode, a, b) && Improved(mode, b, c)
    ensures Improved(mode, a, c)
  {
    forall x | x in a ensures Covered(mode, c, x, a[x]) {
      assert Covered(mode, b, x, a[x]);
    }
  }

  /** A turn only improves labels, only appends to the queue, and covers every child. */
  lemma {:induction false} RelaxImproves(mode: Preference, w: Work, kids: seq<string>, d: nat, j: nat)
    requires j <= |kids|
    ensures Relax(mode, w, kids, d, j).head == w.head && w.queue <= Relax(mode, w, kids, d, j).queue
    ensures Improved(mode, w.best, Relax(mode, w, kids, d, j).best)
    ensures forall i :: j <= i < |kids| ==> Covered(mode, Relax(mode, w, kids, d, j).best, kids[i], d)
    decreases |kids| - j
  {
    if j == |kids| {
    } else {
      if Covered(mode, w.best, kids[j], d) {
        RelaxImproves(mode, w, kids, d, j + 1);
      } else {
        var w1 := w.(queue := w.queue + [(kids[j], d)], best := w.best[kids[j] := d]);
        RelaxImproves(mode, w1, kids, d, j + 1);
        assert Covered(mode, w1.best, kids[j], d);
        ImprovedTransitive(mode, w.best, w1.best, Relax(mode, w1, kids, d, j + 1).best);
      }
    }
  }

  lemma SettledStays(mode: Preference, g: Edges, before: map<string, nat>, after: map<string, nat>, a: string, d: nat)
    requires Settled(mode, g, before, a, d) && Improved(mode, before, after)
    ensures Settled(mode, g, after, a, d)
  {
    forall b | (a, b) in g ensures Covered(mode, after, b, d + 1) {
      assert Covered(mode, before, b, d + 1);
    }
  }

  lemma KidsWitnessed(g: Edges, starts: set<string>, a: string, d: nat, kids: seq<string>)
    requires Witnessed(g, starts, a, d) && forall b :: b in kids ==> (a, b) in g
    ensures forall i :: 0 <= i < |kids| ==> Witnessed(g, starts, kids[i], d + 1)
  {
    var p :| StartWalk(g, starts, p, a, d);
    forall i | 0 <= i < |kids| ensures Witnessed(g, starts, kids[i], d + 1) {
      assert kids[i] in kids;
      WalkExtend(g, p, kids[i]);
      assert StartWalk(g, starts, p + [kids[i]], kids[i], d + 1);
    }
  }

  lemma AdvanceKeepsLabels(mode: Preference, g: Edges, adjacency: map<string, seq<string>>, starts: set<string>,
                           w: Work)
    requires AdjacencyOf(g, adjacency) && LabelsOk(mode, g, starts, w.queue, w.best) && w.head < |w.queue|
    ensures var w' := Advance(mode, adjacency, w); LabelsOk(mode, g, starts, w'.queue, w'.best)
  {
    var (a, d) := w.queue[w.head];
    var kids := Kids(adjacency, a);
    KidsWitnessed(g, starts, a, d, kids);
    RelaxKeeps(mode, g, starts, w.(head := w.head + 1), kids, d + 1, 0);
  }

  lemma AdvanceSettles(mode: Preference, g: Edges, adjacency: map<string, seq<string>>, w: Work)
    requires AdjacencyOf(g, adjacency) && w.head < |w.queue| && SettledUpTo(mode, g, w.queue, w.best, w.head)
    ensures var w' := Advance(mode, adjacency, w);
            w'.head == w.head + 1 && w.queue <= w'.queue && SettledUpTo(mode, g, w'.queue, w'.best, w'.head)
  {
    var (a, d) := w.queue[w.head];
    var kids := Kids(adjacency, a);
    RelaxImproves(mode, w.(head := w.head + 1), kids, d + 1, 0);
    var w' := Advance(mode, adjacency, w);
    forall i | 0 <= i < w'.head ensures Settled(mode, g, w'.best, w'.queue[i].0, w'.queue[i].1) {
      assert w'.queue[i] == w.queue[i];
      if i < w.head {
        SettledStays(mode, g, w.best, w'.best, w.queue[i].0, w.queue[i].1);
      } else {
        forall b | (a, b) in g ensures Covered(mode, w'.best, b, d + 1) {
          assert b in kids;
        }
      }
    }
  }

  lemma AdvanceKeeps(mode: Preference, g: Edges, adjacency: map<string, seq<string>>, starts: set<string>, w: Work)
    requires AdjacencyOf(g, adjacency) && WorkInvariant(mode, g, starts, w) && w.head < |w.queue|
    ensures WorkInvariant(mode, g, starts, Advance(mode, adjacency, w))
  {
    AdvanceKeepsLabels(mode, g, adjacency, starts, w);
    AdvanceSettles(mode, g, adjacency, w);
  }

  // ----- Labels at the end -----

  lemma {:induction false} WalkIsLabelled(mode: Preference, g: Edges, starts: set<string>, w: Work, p: seq<string>,
                                          x: string, d: nat)
    requires WorkInvariant(mode, g, starts, w) && w.head == |w.queue|
    requires StartWalk(g, starts, p, x, d)
    ensures x in w.best && !mode.Replaces(d, w.best[x])
    decreases d
  {
    if d == 0 {
    } else {
      var q := p[..d];
      assert (p[d - 1], p[d]) in g;
      WalkIsLabelled(mode, g, starts, w, q, p[d - 1], d - 1);
      EndIsSettled(mode, g, starts, w, p[d - 1]);
    }
  }

  lemma EndIsSettled(mode: Preference, g: Edges, starts: set<string>, w: Work, a: string)
    requires WorkInvariant(mode, g, starts, w) && w.head == |w.queue| && a in w.best
    ensures Settled(mode, g, w.best, a, w.best[a])
  {
    assert Queued(w.queue, a, w.best[a]);
    var i :| 0 <= i < |w.queue| && w.queue[i] == (a, w.best[a]);
  }

  /** When the queue runs out, exactly the reachable agents are labelled, each with its best depth. */
  lemma FinalLabels(mode: Preference, g: Edges, starts: set<string>, w: Work, x: string)
    requires WorkInvariant(mode, g, starts, w) && w.head == |w.queue|
    ensures x in w.best <==> Reachable(g, starts, x)
    ensures x in w.best ==> BestDepth(mode, g, starts, x, w.best[x])
  {
    if x in w.best {
      assert Queued(w.queue, x, w.best[x]);
      forall p, e | StartWalk(g, starts, p, x, e) ensures !mode.Replaces(e, w.best[x]) {
        WalkIsLabelled(mode, g, starts, w, p, x, e);
      }
    }
    if Reachable(g, starts, x) {
      var p, d :| StartWalk(g, starts, p, x, d);
      WalkIsLabelled(mode, g, starts, w, p, x, d);
    }
  }

  /** If the queue of the longest-label worklist ever runs out, no cycle is reachable. */
  lemma FinishedMeansNoCycle(g: Edges, starts: set<string>, w: Work)
    requires WorkInvariant(Longest, g, starts, w) && w.head == |w.queue|
    ensures !CycleReachable(g, starts)
  {
    if CycleReachable(g, starts) {
      var c :| IsCycle(g, c) && Reachable(g, starts, c[0]);
      FinalLabels(Longest, g, starts, w, c[0]);
      var h := set e | e in g && e.0 in w.best;
      forall e | e in h ensures e.0 in w.best && e.1 in w.best && w.best[e.0] < w.best[e.1] {
        EndIsSettled(Longest, g, starts, w, e.0);
      }
      forall e | e in g && e.0 in w.best ensures e.1 in w.best {
        assert e in h;
      }
      ClosedUnderEdges(g, w.best.Keys, c);
      assert IsWalk(h, c);
      LevelBoundsWalk(h, w.best, c);
      assert false;
    }
  }

  // ----- Termination -----

  /** What a label still costs: the room left below `n` for the longest label, the label itself for the shortest. */
  function Cost(mode: Preference, n: nat, mark: nat): nat {
    match mode
    case Longest => if mark <= n then n - mark else 0
    case Shortest => mark
  }

  function TotalCost(mode: Preference, n: nat, agents: seq<string>, best: map<string, nat>): nat {
    if agents == [] then 0 else
      (if agents[0] in best then Cost(mode, n, best[agents[0]]) else 0) + TotalCost(mode, n, agents[1..], best)
  }

  lemma {:induction false} TotalCostFalls(mode: Preference, n: nat, agents: seq<string>, best: map<string, nat>,
                                          b: string, d: nat)
    requires b in best && mode.Replaces(d, best[b]) && (mode.Longest? ==> d <= n)
    ensures TotalCost(mode, n, agents, best[b := d]) <= TotalCost(mode, n, agents, best)
    ensures b in agents ==> TotalCost(mode, n, agents, best[b := d]) < TotalCost(mode, n, agents, best)
  {
    if agents == [] {
    } else {
      TotalCostFalls(mode, n, agents[1..], best, b, d);
    }
  }

  function Unlabelled(agents: seq<string>, best: map<string, nat>): nat {
    if agents == [] then 0 else (if agents[0] in best then 0 else 1) + Unlabelled(agents[1..], best)
  }

  /** The termination measure of the worklist: unlabelled agents, then label costs, then queue left to process. */
  function Measure(mode: Preference, n: nat, agents: seq<string>, w: Work): (nat, nat, int) {
    (Unlabelled(agents, w.best), TotalCost(mode, n, agents, w.best), |w.queue| - w.head)
  }

  ghost predicate Below(a: (nat, nat, int), b: (nat, nat, int)) {
    a.0 < b.0 || (a.0 == b.0 && (a.1 < b.1 || (a.1 == b.1 && a.2 < b.2)))
  }

  ghost predicate NotAbove(a: (nat, nat, int), b: (nat, nat, int)) {
    Below(a, b) || a == b
  }

  lemma {:induction false} RelaxMeasure(mode: Preference, n: nat, agents: seq<string>, w: Work, kids: seq<string>,
                                        d: nat, j: nat)
    requires j <= |kids| && Elements(kids) <= Elements(agents) && (mode.Longest? ==> d <= n)
    ensures NotAbove(Measure(mode, n, agents, Relax(mode, w, kids, d, j)), Measure(mode, n, agents, w))
    decreases |kids| - j
  {
    if j == |kids| {
    } else {
      var b := kids[j];
      assert b in Elements(kids);
      if Covered(mode, w.best, b, d) {
        RelaxMeasure(mode, n, agents, w, kids, d, j + 1);
      } else {
        var w1 := w.(queue := w.queue + [(b, d)], best := w.best[b := d]);
        ImproveMeasure(mode, n, agents, w, b, d);
        RelaxMeasure(mode, n, agents, w1, kids, d, j + 1);
      }
    }
  }

  /** A recorded improvement lowers the measure whatever is queued. */
  lemma {:induction false} UnlabelledFalls(agents: seq<string>, best: map<string, nat>, b: string, d: nat)
    ensures b in best ==> Unlabelled(agents, best[b := d]) == Unlabelled(agents, best)
    ensures Unlabelled(agents, best[b := d]) <= Unlabelled(agents, best)
    ensures b !in best && b in agents ==> Unlabelled(agents, best[b := d]) < Unlabelled(agents, best)
  {
    if agents == [] {
    } else {
      UnlabelledFalls(agents[1..], best, b, d);
    }
  }

  lemma ImproveMeasure(mode: Preference, n: nat, agents: seq<string>, w: Work, b: string, d: nat)
    requires b in agents && !Covered(mode, w.best, b, d) && (mode.Longest? ==> d <= n)
    ensures Below(Measure(mode, n, agents, w.(queue := w.queue + [(b, d)], best := w.best[b := d])),
                  Measure(mode, n, agents, w))
  {
    UnlabelledFalls(agents, w.best, b, d);
    if b in w.best {
      TotalCostFalls(mode, n, agents, w.best, b, d);
    }
  }

  lemma TurnMeasure(mode: Preference, n: nat, agents: seq<string>, w: Work, kids: seq<string>, d: nat)
    requires w.head < |w.queue| && Elements(kids) <= Elements(agents) && (mode.Longest? ==> d <= n)
    ensures Below(Measure(mode, n, agents, Relax(mode, w.(head := w.head + 1), kids, d, 0)),
                  Measure(mode, n, agents, w))
  {
    RelaxMeasure(mode, n, agents, w.(head := w.head + 1), kids, d, 0);
  }

  /** Every turn lowers the measure: labels improve within bounds, or only the queue gets shorter. */
  lemma AdvanceMeasure(mode: Preference, n: nat, agents: seq<string>, adjacency: map<string, seq<string>>, w: Work,
                       a: string, d: nat)
    requires w.head < |w.queue| && w.queue[w.head] == (a, d)
    requires Elements(Kids(adjacency, a)) <= Elements(agents) && (mode.Longest? ==> d < n)
    ensures Below(Measure(mode, n, agents, Advance(mode, adjacency, w)), Measure(mode, n, agents, w))
  {
    TurnMeasure(mode, n, agents, w, Kids(adjacency, a), d + 1);
  }

  lemma RepeatReachesCycle(g: Edges, starts: set<string>, p: seq<string>, x: string, d: nat)
    requires StartWalk(g, starts, p, x, d) && !Distinct(p)
    ensures CycleReachable(g, starts)
  {
    var lo, hi := RepeatedNodeGivesCycle(g, p);
    SliceIsWalk(g, p, 0, lo + 1);
    assert StartWalk(g, starts, p[0..lo + 1], p[lo], lo);
    var c := p[lo..hi + 1];
    assert IsCycle(g, c) && c[0] == p[lo];
  }

  /** Without a reachable cycle, walks from a start visit distinct agents. */
  lemma StartWalkIsShort(g: Edges, starts: set<string>, agents: seq<string>, p: seq<string>, x: string, d: nat)
    requires !CycleReachable(g, starts) && StartWalk(g, starts, p, x, d)
    requires starts <= Elements(agents) && forall e :: e in g ==> e.1 in agents
    ensures d < |Elements(agents)|
  {
    forall i | 0 <= i < |p| ensures p[i] in Elements(agents) {
      if i > 0 {
        assert (p[i - 1], p[i]) in g;
      }
    }
    if !Distinct(p) {
      RepeatReachesCycle(g, starts, p, x, d);
    }
    if |p| > |Elements(agents)| {
      Pigeonhole(p, Elements(agents));
    }
  }

  /** The exact condition under which the worklist comes to an end. */
  ghost predicate EndsOn(mode: Preference, g: Edges, starts: set<string>) {
    mode.Shortest? || !CycleReachable(g, starts)
  }

  lemma HeadIsBounded(mode: Preference, g: Edges, starts: set<string>, agents: seq<string>, w: Work)
    requires EndsOn(mode, g, starts) && WorkInvariant(mode, g, starts, w) && w.head < |w.queue|
    requires starts <= Elements(agents) && forall e :: e in g ==> e.1 in agents
    ensures mode.Longest? ==> w.queue[w.head].1 < |Elements(agents)|
  {
    if mode.Longest? {
      var (a, d) := w.queue[w.head];
      assert Witnessed(g, starts, w.queue[w.head].0, w.queue[w.head].1);
      var p :| StartWalk(g, starts, p, a, d);
      StartWalkIsShort(g, starts, agents, p, a, d);
    }
  }

  /** What a run of the worklist needs to know about the graph it walks. */
  ghost predicate RunsOn(g: Edges, adjacency: map<string, seq<string>>, agents: seq<string>, starts: set<string>) {
    AdjacencyOf(g, adjacency) && starts <= Elements(agents) && forall e :: e in g ==> e.1 in agents
  }

  /** One turn of the worklist: it keeps the invariant and lowers the measure. */
  lemma Turn(mode: Preference, g: Edges, adjacency: map<string, seq<string>>, agents: seq<string>,
             starts: set<string>, w: Work)
    requires RunsOn(g, adjacency, agents, starts) && EndsOn(mode, g, starts)
    requires WorkInvariant(mode, g, starts, w) && w.head < |w.queue|
    ensures var w', n := Advance(mode, adjacency, w), |Elements(agents)|;
            WorkInvariant(mode, g, starts, w') && Below(Measure(mode, n, agents, w'), Measure(mode, n, agents, w))
  {
    AdvanceKeeps(mode, g, adjacency, starts, w);
    HeadIsBounded(mode, g, starts, agents, w);
    var (a, d) := w.queue[w.head];
    forall b | b in Kids(adjacency, a) ensures b in Elements(agents) {
      assert (a, b) in g;
    }
    AdvanceMeasure(mode, |Elements(agents)|, agents, adjacency, w, a, d);
  }

  lemma {:induction false} RunEnds(mode: Preference, g: Edges, adjacency: map<string, seq<string>>,
                                   agents: seq<string>, starts: set<string>, w: Work)
    returns (n: nat)
    requires RunsOn(g, adjacency, agents, starts) && EndsOn(mode, g, starts) && WorkInvariant(mode, g, starts, w)
    ensures After(mode, adjacency, w, n).head == |After(mode, adjacency, w, n).queue|
    decreases Measure(mode, |Elements(agents)|, agents, w).0, Measure(mode, |Elements(agents)|, agents, w).1,
              |w.queue| - w.head
  {
    if w.head == |w.queue| {
      n := 0;
    } else {
      Turn(mode, g, adjacency, agents, starts, w);
      n := RunEnds(mode, g, adjacency, agents, starts, Advance(mode, adjacency, w));
      n := n + 1;
    }
  }

  lemma {:induction false} AfterKeeps(mode: Preference, g: Edges, adjacency: map<string, seq<string>>,
                                      starts: set<string>, w: Work, n: nat)
    requires AdjacencyOf(g, adjacency) && WorkInvariant(mode, g, starts, w)
    ensures WorkInvariant(mode, g, starts, After(mode, adjacency, w, n))
    decreases n
  {
    if n == 0 || w.head >= |w.queue| {
    } else {
      AdvanceKeeps(mode, g, adjacency, starts, w);
      AfterKeeps(mode, g, adjacency, starts, Advance(mode, adjacency, w), n - 1);
    }
  }

  /**
   The longest-label worklist comes to an end exactly when no start reaches a cycle; the
   shortest-label one always does.
   */
  lemma EndsExactlyWithoutReachableCycle(mode: Preference, g: Edges, adjacency: map<string, seq<string>>,
                                         agents: seq<string>, starts: seq<string>)
    requires RunsOn(g, adjacency, agents, Elements(starts))
    ensures (exists n ::
               After(mode, adjacency, Initial(starts), n).head == |After(mode, adjacency, Initial(starts), n).queue|)
            <==> EndsOn(mode, g, Elements(starts))
  {
    InitialInvariant(mode, g, starts);
    if EndsOn(mode, g, Elements(starts)) {
      var n := RunEnds(mode, g, adjacency, agents, Elements(starts), Initial(starts));
    }
    if n: nat :| After(mode, adjacency, Initial(starts), n).head == |After(mode, adjacency, Initial(starts), n).queue| {
      AfterKeeps(mode, g, adjacency, Elements(starts), Initial(starts), n);
      if mode.Longest? {
        FinishedMeansNoCycle(g, Elements(starts), After(mode, adjacency, Initial(starts), n));
      }
    }
  }
}
