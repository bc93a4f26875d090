/** The topological order of the work nodes of a delegation graph. */
module DelegationOrder {
  import opened Graphs
  import opened DependencyCounts
  import opened DelegationDepth
  import opened WalkOrders
  import DG = DelegationGraph

  /** The ids of the work nodes, in node order. */
  function WorkNodes(graph: Graph): seq<string> {
    WorkIds(graph.nodes, {})
  }

  /** The entries that join two work nodes. */
  function Between(entries: Entries, work: set<string>): Entries {
    if entries == [] then [] else
      var last := entries[|entries| - 1];
      Between(entries[..|entries| - 1], work) + if last.0 in work && last.1 in work then [last] else []
  }

  function WorkEntries(graph: Graph): Entries {
    Between(ParentEntries(graph.edges), Elements(WorkNodes(graph)))
  }

  lemma {:induction false} BetweenMembers(entries: Entries, work: set<string>, e: (string, string))
    ensures e in Between(entries, work) <==> e in entries && e.0 in work && e.1 in work
  {
    if entries == [] {
    } else {
      var front, last := entries[..|entries| - 1], entries[|entries| - 1];
      BetweenMembers(front, work, e);
      assert e in entries <==> e in front || e == last;
    }
  }

  /** What finalizing guarantees: ids occur once, and the roots are the work nodes without a parent edge. */
  ghost predicate Finalized(graph: Graph) {
    Distinct(WorkNodes(graph)) &&
    graph.roots == WorkIds(graph.nodes, Children(ParentEdges(graph.edges)))
  }

  /** The ids of `ids` that are not among `taken`, in order. */
  function Others(ids: seq<string>, taken: set<string>): seq<string> {
    if ids == [] then [] else
      var last := ids[|ids| - 1];
      Others(ids[..|ids| - 1], taken) + if last in taken then [] else [last]
  }

  lemma {:induction false} OthersMembers(ids: seq<string>, taken: set<string>)
    ensures forall x :: x in Others(ids, taken) <==> x in ids && x !in taken
    ensures Distinct(ids) ==> Distinct(Others(ids, taken))
  {
    if ids == [] {
    } else {
      var front, last := ids[..|ids| - 1], ids[|ids| - 1];
      OthersMembers(front, taken);
      if last !in taken && Distinct(ids) {
        assert last !in front;
        DistinctAppend(Others(front, taken), [last]);
      }
    }
  }

  lemma {:induction false} OthersKeepOrder(ids: seq<string>, taken: set<string>, a: string, b: string)
    requires a !in taken && b !in taken
    ensures Before(Others(ids, taken), a, b) <==> Before(ids, a, b)
  {
    if ids == [] {
    } else {
      var front, last := ids[..|ids| - 1], ids[|ids| - 1];
      OthersKeepOrder(front, taken, a, b);
      OthersMembers(front, taken);
      BeforeLast(front, last, a, b);
      BeforeLast(Others(front, taken), last, a, b);
      assert front + [last] == ids;
      assert last in taken ==> Others(ids, taken) == Others(front, taken);
    }
  }

  // ----- What the walk emits -----

  /** A work node the walk never starts from: it has a parent, but none among the work nodes; or its id is empty. */
  ghost predicate Stuck(graph: Graph, x: string) {
    x == "" || (x in Children(ParentEdges(graph.edges)) && forall a :: (a, x) !in WorkEntries(graph))
  }

  ghost predicate ParentsFirst(entries: Entries, order: seq<string>) {
    forall i, a :: 0 <= i < |order| && (a, order[i]) in entries ==> a in order[..i]
  }

  lemma NextInOrder(entries: Entries, order: seq<string>, next: string)
    requires ParentsFirst(entries, order) && forall a :: (a, next) in entries ==> a in Elements(order)
    ensures ParentsFirst(entries, order + [next])
  {
    var longer := order + [next];
    forall i, a | 0 <= i < |longer| && (a, longer[i]) in entries ensures a in longer[..i] {
      assert longer[..i] == order[..i];
      if i == |order| {
        assert order[..i] == order;
      }
    }
  }

  /**
   `kahn` is what the walk emits: roots first and in their order, the others in the order in which the last edge into
   them was followed, parents first, nothing stuck, and nothing held back without a reason.
   */
  ghost predicate Emitted(graph: Graph, kahn: seq<string>) {
    Distinct(kahn) && Elements(kahn) <= Elements(WorkNodes(graph)) &&
    ParentsFirst(WorkEntries(graph), kahn) && ReleaseOrder(WorkEntries(graph), kahn) &&
    NonEmpty(graph.roots) <= kahn &&
    (forall x :: x in kahn ==> !Stuck(graph, x)) &&
    (forall x :: x in WorkNodes(graph) && x !in kahn ==> Stuck(graph, x) || HeldBack(graph, kahn, x))
  }

  ghost predicate HeldBack(graph: Graph, kahn: seq<string>, x: string) {
    exists a :: (a, x) in WorkEntries(graph) && a !in kahn
  }

  // ----- delegationTopologicalOrder -----

  function NonEmpty(ids: seq<string>): seq<string> {
    if ids == [] then [] else
      var last := ids[|ids| - 1];
      NonEmpty(ids[..|ids| - 1]) + if last == "" then [] else [last]
  }

  lemma {:induction false} NonEmptyMembers(ids: seq<string>)
    ensures forall x :: x in NonEmpty(ids) <==> x in ids && x != ""
    ensures Distinct(ids) ==> Distinct(NonEmpty(ids))
  {
    if ids == [] {
    } else {
      var front, last := ids[..|ids| - 1], ids[|ids| - 1];
      NonEmptyMembers(front);
      if Distinct(ids) && last != "" {
        assert last !in front;
        DistinctAppend(NonEmpty(front), [last]);
      }
    }
  }

  /**
   The state of the walk over a finalized graph: `popped` was taken from the queue, and both together are the
   roots followed by the released nodes.
   */
  ghost predicate WalkInvariant(graph: Graph, popped: seq<string>, queue: seq<string>, inDegree: map<string, int>) {
    var order, all := NonEmpty(popped), popped + queue;
    Distinct(all) && inDegree.Keys == Elements(WorkNodes(graph)) &&
    CountsMatch(WorkEntries(graph), Elements(order), inDegree) &&
    (forall x :: x in all <==> x in inDegree && inDegree[x] == 0 && Startable(graph, x)) &&
    ParentsFirst(WorkEntries(graph), order) && Releasing(WorkEntries(graph), popped, queue) && graph.roots <= all
  }

  /** A root, or a node that waits for some work node. */
  ghost predicate Startable(graph: Graph, x: string) {
    x in graph.roots || exists a :: (a, x) in WorkEntries(graph)
  }

  /** Counters and child lists over the entries between work nodes. */
  method CountParents(graph: Graph) returns (inDegree: map<string, int>, children: map<string, seq<string>>)
    ensures inDegree.Keys == Elements(WorkNodes(graph))
    ensures CountsMatch(WorkEntries(graph), {}, inDegree) && ChildrenMatch(WorkEntries(graph), children)
  {
    var workNodeIds := WorkNodes(graph);
    inDegree, children := map[], map[];
    for i := 0 to |workNodeIds|
      invariant inDegree.Keys == Elements(workNodeIds[..i])
      invariant forall x :: x in inDegree ==> inDegree[x] == 0
    {
      inDegree := inDegree[workNodeIds[i] := 0];
      assert workNodeIds[..i + 1] == workNodeIds[..i] + [workNodeIds[i]];
    }
    assert workNodeIds[..|workNodeIds|] == workNodeIds;
    var entries := ParentEntries(graph.edges);
    ghost var seen: Entries := [];
    for i := 0 to |entries|
      invariant seen == Between(entries[..i], Elements(workNodeIds))
      invariant inDegree.Keys == Elements(workNodeIds)
      invariant CountsMatch(seen, {}, inDegree) && ChildrenMatch(seen, children)
    {
      var edge := entries[i];
      assert entries[..i + 1][..i] == entries[..i];
      if edge.0 in inDegree && edge.1 in inDegree {
        inDegree, children := CountEntry(edge.0, edge.1, inDegree, children, seen);
        seen := seen + [edge];
      }
    }
    assert entries[..|entries|] == entries;
  }

  lemma WorkEntryEnds(graph: Graph)
    ensures forall e :: e in WorkEntries(graph) ==>
            e.0 in WorkNodes(graph) && e.1 in WorkNodes(graph) && e in ParentEdges(graph.edges)
  {
    forall e | e in WorkEntries(graph)
      ensures e.0 in WorkNodes(graph) && e.1 in WorkNodes(graph) && e in ParentEdges(graph.edges)
    {
      BetweenMembers(ParentEntries(graph.edges), Elements(WorkNodes(graph)), e);
    }
  }

  lemma WorkChildrenCounted(graph: Graph, inDegree: map<string, int>, children: map<string, seq<string>>)
    requires inDegree.Keys == Elements(WorkNodes(graph)) && ChildrenMatch(WorkEntries(graph), children)
    ensures ChildrenCounted(children, inDegree)
  {
    WorkEntryEnds(graph);
    forall a, c | c in ChildrenOf(children, a) ensures c in inDegree {
      TargetsAreEntries(WorkEntries(graph), a);
      assert (a, c) in WorkEntries(graph);
    }
  }

  lemma RootsHaveNoEntries(graph: Graph, x: string)
    requires Finalized(graph) && x in graph.roots
    ensures x in WorkNodes(graph) && forall a :: (a, x) !in WorkEntries(graph)
  {
    WorkIdsMembers(graph.nodes, Children(ParentEdges(graph.edges)), x);
    WorkIdsMembers(graph.nodes, {}, x);
    WorkEntryEnds(graph);
    assert forall e :: e in ParentEdges(graph.edges) ==> e.1 in Children(ParentEdges(graph.edges));
  }

  lemma {:induction false} RootsDistinct(nodes: seq<DG.Node>, excluded: set<string>)
    requires Distinct(WorkIds(nodes, {}))
    ensures Distinct(WorkIds(nodes, excluded))
    ensures forall x :: x in WorkIds(nodes, excluded) ==> x in WorkIds(nodes, {})
  {
    if nodes == [] {
    } else {
      var front, last := nodes[..|nodes| - 1], nodes[|nodes| - 1];
      var own := if last.kind.ResponseNode? then [] else [last.messageId];
      DistinctParts(WorkIds(front, {}), own);
      RootsDistinct(front, excluded);
      if !last.kind.ResponseNode? && last.messageId !in excluded {
        assert last.messageId in Elements(own);
        DistinctAppend(WorkIds(front, excluded), own);
      }
    }
  }

  lemma StartInvariant(graph: Graph, inDegree: map<string, int>)
    requires Finalized(graph) && inDegree.Keys == Elements(WorkNodes(graph)) &&
             CountsMatch(WorkEntries(graph), {}, inDegree)
    ensures WalkInvariant(graph, [], graph.roots, inDegree)
  {
    RootsDistinct(graph.nodes, Children(ParentEdges(graph.edges)));
    assert [] + graph.roots == graph.roots;
    assert Elements(NonEmpty([])) == {};
    forall x ensures x in graph.roots <==> x in inDegree && inDegree[x] == 0 && Startable(graph, x) {
      if x in graph.roots {
        RootsHaveNoEntries(graph, x);
        RemainingZero(WorkEntries(graph), {}, x);
      } else if x in inDegree && inDegree[x] == 0 {
        RemainingZero(WorkEntries(graph), {}, x);
      }
    }
    forall r | r in graph.roots ensures forall a :: (a, r) !in WorkEntries(graph) {
      RootsHaveNoEntries(graph, r);
    }
    assert forall e :: e in WorkEntries(graph) ==> e == (e.0, e.1);
    StartReleasing(WorkEntries(graph), graph.roots);
  }

  /** Popping an empty id moves it out of the queue and changes nothing else. */
  lemma PopEmpty(graph: Graph, popped: seq<string>, rest: seq<string>, inDegree: map<string, int>)
    requires WalkInvariant(graph, popped, [""] + rest, inDegree)
    ensures WalkInvariant(graph, popped + [""], rest, inDegree)
  {
    assert popped + ([""] + rest) == popped + [""] + rest;
    assert (popped + [""])[..|popped|] == popped;
    assert NonEmpty(popped + [""]) == NonEmpty(popped);
    ReleaseNothing(WorkEntries(graph), popped, "", rest);
  }

  lemma PopFresh(graph: Graph, popped: seq<string>, current: string, rest: seq<string>, inDegree: map<string, int>)
    requires WalkInvariant(graph, popped, [current] + rest, inDegree)
    ensures current in inDegree && current !in NonEmpty(popped)
  {
    var all := popped + ([current] + rest);
    assert all[|popped|] == current;
    NonEmptyMembers(popped);
    DistinctParts(popped, [current] + rest);
    assert current in Elements([current] + rest);
  }

  lemma NonEmptyPush(popped: seq<string>, current: string)
    requires current != ""
    ensures NonEmpty(popped + [current]) == NonEmpty(popped) + [current]
    ensures Elements(NonEmpty(popped + [current])) == Elements(NonEmpty(popped)) + {current}
  {
    assert (popped + [current])[..|popped|] == popped;
  }

  /** After a node was emitted, the nodes popped or queued are those whose counter is zero. */
  lemma QueueAfter(graph: Graph, popped: seq<string>, current: string, rest: seq<string>,
                   before: map<string, int>, after: map<string, int>, next: seq<string>)
    requires WalkInvariant(graph, popped, [current] + rest, before)
    requires Released(before, after, next)
    requires CountsMatch(WorkEntries(graph), Elements(NonEmpty(popped)) + {current}, after)
    ensures var all := popped + [current] + (rest + next);
            Distinct(all) && forall x :: x in all <==> x in after && after[x] == 0 && Startable(graph, x)
  {
    var entries, done := WorkEntries(graph), Elements(NonEmpty(popped));
    var all := popped + ([current] + rest);
    assert popped + [current] + (rest + next) == all + next;
    forall x | x in next ensures x !in all {
      assert before[x] > 0;
    }
    DistinctAppend(all, next);
    forall x ensures x in all + next <==> x in after && after[x] == 0 && Startable(graph, x) {
      if x in after {
        RemainingShrinks(entries, done, done + {current}, x);
        RemainingZero(entries, done, x);
      }
    }
  }

  /** Emitting a node and releasing its children keeps the state of the walk. */
  lemma {:induction false} PopNode(graph: Graph, popped: seq<string>, current: string, rest: seq<string>,
                                   before: map<string, int>, after: map<string, int>, next: seq<string>,
                                   last: seq<nat>)
    requires WalkInvariant(graph, popped, [current] + rest, before) && current != ""
    requires Released(before, after, next)
    requires LastOccurrences(Targets(WorkEntries(graph), current), next, last, after)
    requires CountsMatch(WorkEntries(graph), Elements(NonEmpty(popped)) + {current}, after)
    ensures WalkInvariant(graph, popped + [current], rest + next, after)
  {
    NonEmptyPush(popped, current);
    QueueAfter(graph, popped, current, rest, before, after, next);
    var order := NonEmpty(popped);
    assert current in popped + ([current] + rest);
    RemainingZero(WorkEntries(graph), Elements(order), current);
    NextInOrder(WorkEntries(graph), order, current);
    PopReleases(graph, popped, current, rest, before, after, next, last);
  }

  lemma PopReleases(graph: Graph, popped: seq<string>, current: string, rest: seq<string>,
                    before: map<string, int>, after: map<string, int>, next: seq<string>, last: seq<nat>)
    requires WalkInvariant(graph, popped, [current] + rest, before) && current != ""
    requires Released(before, after, next)
    requires LastOccurrences(Targets(WorkEntries(graph), current), next, last, after)
    requires CountsMatch(WorkEntries(graph), Elements(NonEmpty(popped)) + {current}, after)
    requires Distinct(popped + [current] + (rest + next))
    ensures Releasing(WorkEntries(graph), popped + [current], rest + next)
    ensures graph.roots <= popped + [current] + (rest + next)
  {
    var entries, done := WorkEntries(graph), Elements(NonEmpty(popped)) + {current};
    var all := popped + ([current] + rest);
    MoveOver(popped, current, rest, next);
    NonEmptyMembers(popped);
    ReleasedParents(entries, done, after, next);
    forall k | 0 <= k < |next| ensures after[next[k]] == 0 {
      assert next[k] in next;
    }
    var at := LastTargets(entries, current, next, last);
    ReleaseStep(entries, popped, current, rest, next, at);
  }

  /** Nodes whose counter is used up wait for nothing unfinished. */
  lemma ReleasedParents(entries: Entries, done: set<string>, after: map<string, int>, next: seq<string>)
    requires CountsMatch(entries, done, after) && forall x :: x in next ==> x in after && after[x] <= 0
    ensures forall x :: x in next ==> after[x] == 0
    ensures forall e :: e in entries && e.1 in next ==> e.0 in done
  {
    forall x | x in next ensures after[x] == 0 {
      assert after[x] == Remaining(entries, done, x);
    }
    forall e | e in entries && e.1 in next ensures e.0 in done {
      RemainingZero(entries, done, e.1);
    }
  }

  lemma {:induction false} NonEmptyOthers(ids: seq<string>)
    ensures NonEmpty(ids) == Others(ids, {""})
  {
    if ids == [] {
    } else {
      NonEmptyOthers(ids[..|ids| - 1]);
    }
  }

  lemma {:induction false} NonEmptyPrefix(a: seq<string>, b: seq<string>)
    ensures NonEmpty(a + b) == NonEmpty(a) + NonEmpty(b)
  {
    if b == [] {
      assert a + b == a;
    } else {
      assert (a + b)[..|a + b| - 1] == a + b[..|b| - 1];
      NonEmptyPrefix(a, b[..|b| - 1]);
    }
  }

  /** Leaving out the empty id keeps the order of release. */
  lemma EmittedInOrder(graph: Graph, popped: seq<string>)
    requires ReleaseOrder(WorkEntries(graph), popped) && ParentsFirst(WorkEntries(graph), NonEmpty(popped))
    ensures ReleaseOrder(WorkEntries(graph), NonEmpty(popped))
  {
    var entries, kahn := WorkEntries(graph), NonEmpty(popped);
    forall x, y, m | Before(kahn, x, y) && 0 <= m < |entries| && entries[m].1 == x
      ensures ReleasedAfter(entries, kahn, m, y)
    {
      KeepsPair(entries, popped, x, y, m);
    }
  }

  lemma KeepsPair(entries: Entries, popped: seq<string>, x: string, y: string, m: int)
    requires ReleaseOrder(entries, popped) && ParentsFirst(entries, NonEmpty(popped))
    requires Before(NonEmpty(popped), x, y) && 0 <= m < |entries| && entries[m].1 == x
    ensures ReleasedAfter(entries, NonEmpty(popped), m, y)
  {
    var kahn := NonEmpty(popped);
    NonEmptyOthers(popped);
    NonEmptyMembers(popped);
    BeforeMembers(kahn, x, y);
    OthersKeepOrder(popped, {""}, x, y);
    assert ReleasedAfter(entries, popped, m, y);
    var n :| 0 <= n < |entries| && entries[n].1 == y && SeenBefore(entries, popped, m, n);
    SourceEmitted(entries, kahn, m);
    SourceEmitted(entries, kahn, n);
    OthersKeepOrder(popped, {""}, entries[m].0, entries[n].0);
    assert SeenBefore(entries, kahn, m, n);
  }

  lemma SourceEmitted(entries: Entries, kahn: seq<string>, m: int)
    requires 0 <= m < |entries| && entries[m].1 in kahn && ParentsFirst(entries, kahn)
    ensures entries[m].0 in kahn
  {
    var i :| 0 <= i < |kahn| && kahn[i] == entries[m].1;
    assert (entries[m].0, kahn[i]) in entries;
  }

  lemma RootsLead(roots: seq<string>, popped: seq<string>)
    requires roots <= popped
    ensures NonEmpty(roots) <= NonEmpty(popped)
  {
    assert popped == roots + popped[|roots|..];
    NonEmptyPrefix(roots, popped[|roots|..]);
  }

  /** When the queue runs dry, what was emitted is exactly what the graph lets through. */
  lemma WalkDone(graph: Graph, popped: seq<string>, inDegree: map<string, int>)
    requires Finalized(graph) && WalkInvariant(graph, popped, [], inDegree)
    ensures Emitted(graph, NonEmpty(popped))
  {
    var entries, kahn := WorkEntries(graph), NonEmpty(popped);
    assert popped + [] == popped;
    NonEmptyMembers(popped);
    EmittedInOrder(graph, popped);
    RootsLead(graph.roots, popped);
    forall x | x in kahn ensures !Stuck(graph, x) && x in WorkNodes(graph) {
      assert x in popped && Startable(graph, x);
      if x in graph.roots {
        WorkIdsMembers(graph.nodes, Children(ParentEdges(graph.edges)), x);
      }
    }
    forall x | x in WorkNodes(graph) && x !in kahn ensures Stuck(graph, x) || HeldBack(graph, kahn, x) {
      RemainingZero(entries, Elements(kahn), x);
      if x != "" && !HeldBack(graph, kahn, x) {
        assert x !in popped && inDegree[x] == 0 && !Startable(graph, x);
        WorkIdsMembers(graph.nodes, Children(ParentEdges(graph.edges)), x);
        WorkIdsMembers(graph.nodes, {}, x);
      }
    }
  }

  /** Take nodes from the queue, emit them and release their children until the queue is empty. */
  method EmitNodes(graph: Graph, roots: seq<string>, degrees: map<string, int>, children: map<string, seq<string>>)
    returns (order: seq<string>)
    requires degrees.Keys == Elements(WorkNodes(graph)) && (forall r :: r in roots ==> r in degrees)
    requires CountsMatch(WorkEntries(graph), {}, degrees) && ChildrenMatch(WorkEntries(graph), children)
    requires Finalized(graph) ==> WalkInvariant(graph, [], roots, degrees)
    ensures forall x :: x in order ==> x in degrees
    ensures Finalized(graph) ==> Emitted(graph, order)
  {
    WorkChildrenCounted(graph, degrees, children);
    order := [];
    var queue, inDegree := roots, degrees;
    ghost var popped: seq<string> := [];
    while |queue| > 0
      invariant inDegree.Keys == degrees.Keys && order == NonEmpty(popped)
      invariant (forall x :: x in order ==> x in degrees) && forall x :: x in queue ==> x in degrees
      invariant Finalized(graph) ==> WalkInvariant(graph, popped, queue, inDegree)
      decreases Positive(inDegree), |queue|
    {
      var current, rest := queue[0], queue[1..];
      assert queue == [current] + rest;
      assert (popped + [current])[..|popped|] == popped;
      if current == "" {
        if Finalized(graph) {
          PopEmpty(graph, popped, rest, inDegree);
        }
        queue, popped := rest, popped + [current];
      } else {
        ghost var before := inDegree;
        var next;
        inDegree, next := EmitNode(graph, current, inDegree, children, popped, rest);
        if next != [] {
          assert next[0] in Positive(before) && next[0] !in Positive(inDegree);
        }
        order, queue, popped := order + [current], rest + next, popped + [current];
      }
    }
    if Finalized(graph) {
      assert queue == [];
      WalkDone(graph, popped, inDegree);
    }
  }

  /** Emit one node that is not the empty id. */
  method EmitNode(graph: Graph, current: string, before: map<string, int>, children: map<string, seq<string>>,
                  ghost popped: seq<string>, ghost rest: seq<string>)
    returns (inDegree: map<string, int>, next: seq<string>)
    requires ChildrenMatch(WorkEntries(graph), children) && ChildrenCounted(children, before) && current != ""
    ensures Released(before, inDegree, next)
    ensures WalkInvariant(graph, popped, [current] + rest, before) ==>
              WalkInvariant(graph, popped + [current], rest + next, inDegree)
  {
    ghost var last;
    inDegree, next, last := ReleaseNode(graph, current, before, children, popped);
    if WalkInvariant(graph, popped, [current] + rest, before) {
      PopFresh(graph, popped, current, rest, before);
      PopNode(graph, popped, current, rest, before, inDegree, next, last);
    }
  }

  method ReleaseNode(graph: Graph, current: string, before: map<string, int>, children: map<string, seq<string>>,
                     ghost popped: seq<string>)
    returns (inDegree: map<string, int>, next: seq<string>, ghost last: seq<nat>)
    requires ChildrenMatch(WorkEntries(graph), children) && ChildrenCounted(children, before)
    ensures Released(before, inDegree, next)
    ensures LastOccurrences(Targets(WorkEntries(graph), current), next, last, inDegree)
    ensures CountsMatch(WorkEntries(graph), Elements(NonEmpty(popped)), before) && current !in NonEmpty(popped)
            ==> CountsMatch(WorkEntries(graph), Elements(NonEmpty(popped)) + {current}, inDegree)
  {
    ghost var released;
    inDegree, next, released, last := ReleaseChildren(ChildrenOf(children, current), before, [], before);
    assert next == released;
    if CountsMatch(WorkEntries(graph), Elements(NonEmpty(popped)), before) && current !in NonEmpty(popped) {
      CountsAfter(WorkEntries(graph), Elements(NonEmpty(popped)), current, before, inDegree);
    }
  }

  /** The roots among the work nodes, in order. */
  method StartNodes(graph: Graph, inDegree: map<string, int>) returns (queue: seq<string>)
    requires inDegree.Keys == Elements(WorkNodes(graph))
    ensures forall r :: r in queue ==> r in inDegree
    ensures (forall r :: r in graph.roots ==> r in inDegree) ==> queue == graph.roots
  {
    queue := [];
    for i := 0 to |graph.roots|
      invariant forall r :: r in queue ==> r in inDegree
      invariant (forall r :: r in graph.roots ==> r in inDegree) ==> queue == graph.roots[..i]
    {
      assert graph.roots[..i + 1] == graph.roots[..i] + [graph.roots[i]];
      if graph.roots[i] in inDegree {
        queue := queue + [graph.roots[i]];
      }
    }
    assert graph.roots[..|graph.roots|] == graph.roots;
  }

  /** Append the ids not yet listed, in order. */
  method AppendMissing(kahn: seq<string>, ids: seq<string>) returns (order: seq<string>)
    requires forall x :: x in kahn ==> x in ids
    ensures forall x :: x in order <==> x in ids
    ensures Distinct(ids) ==> order == kahn + Others(ids, Elements(kahn))
  {
    order := kahn;
    for i := 0 to |ids|
      invariant forall x :: x in order <==> x in kahn || x in ids[..i]
      invariant Distinct(ids) ==> order == kahn + Others(ids[..i], Elements(kahn))
    {
      assert ids[..i + 1] == ids[..i] + [ids[i]] && ids[..i + 1][..i] == ids[..i];
      if Distinct(ids) {
        assert ids[i] !in ids[..i];
      }
      if ids[i] !in order {
        order := order + [ids[i]];
      }
    }
    assert ids[..|ids|] == ids;
  }

  /** Emitted nodes first, then the work nodes the walk never emitted, in node order. */
  method DelegationTopologicalOrder(graph: Graph) returns (order: seq<string>, ghost kahn: seq<string>)
    ensures forall x :: x in order <==> x in WorkNodes(graph)
    ensures Finalized(graph) ==> Emitted(graph, kahn) && order == kahn + Others(WorkNodes(graph), Elements(kahn))
  {
    var inDegree, children := CountParents(graph);
    var queue := StartNodes(graph, inDegree);
    if Finalized(graph) {
      forall r | r in graph.roots ensures r in inDegree {
        RootsHaveNoEntries(graph, r);
      }
      StartInvariant(graph, inDegree);
    }
    var emitted := EmitNodes(graph, queue, inDegree, children);
    kahn := emitted;
    order := AppendMissing(emitted, WorkNodes(graph));
  }

  // ----- What the order promises -----

  /** A stuck node, or a cycle, lies above `x`. */
  ghost predicate Blocked(graph: Graph, x: string) {
    (exists w :: w in WorkNodes(graph) && Stuck(graph, w) && Reaches(EdgesOf(WorkEntries(graph)), w, x)) ||
    (exists c :: IsCycle(EdgesOf(WorkEntries(graph)), c) && Reaches(EdgesOf(WorkEntries(graph)), c[0], x))
  }

  lemma ParentEmitted(graph: Graph, kahn: seq<string>, a: string, x: string)
    requires Emitted(graph, kahn) && x in kahn && (a, x) in EdgesOf(WorkEntries(graph))
    ensures a in kahn
  {
    var j :| 0 <= j < |kahn| && kahn[j] == x;
    assert (a, kahn[j]) in WorkEntries(graph);
  }

  /** What is emitted is closed towards the parents. */
  lemma {:induction false} EmittedAbove(graph: Graph, kahn: seq<string>, p: seq<string>)
    requires Emitted(graph, kahn) && IsWalk(EdgesOf(WorkEntries(graph)), p) && p[|p| - 1] in kahn
    ensures forall i :: 0 <= i < |p| ==> p[i] in kahn
    decreases |p|
  {
    if |p| <= 1 {
    } else {
      var n := |p|;
      assert (p[n - 2], p[n - 1]) in EdgesOf(WorkEntries(graph));
      ParentEmitted(graph, kahn, p[n - 2], p[n - 1]);
      EmittedAbove(graph, kahn, p[..n - 1]);
      assert forall i :: 0 <= i < n - 1 ==> p[i] == p[..n - 1][i];
    }
  }

  /** Positions in the emitted sequence grow along work edges. */
  ghost function Positions(kahn: seq<string>): (m: map<string, nat>)
    requires Distinct(kahn)
    ensures m.Keys == Elements(kahn)
    ensures forall i :: 0 <= i < |kahn| ==> m[kahn[i]] == i
  {
    if kahn == [] then map[] else
      var n := |kahn| - 1;
      Positions(kahn[..n])[kahn[n] := n]
  }

  lemma EmittedNotBlocked(graph: Graph, kahn: seq<string>, x: string)
    requires Emitted(graph, kahn) && x in kahn
    ensures !Blocked(graph, x)
  {
    var g := EdgesOf(WorkEntries(graph));
    forall w | Reaches(g, w, x) ensures w in kahn {
      var p :| WalkFromTo(g, p, w, x);
      EmittedAbove(graph, kahn, p);
    }
    forall c | IsCycle(g, c) ensures !Reaches(g, c[0], x) {
      if Reaches(g, c[0], x) {
        CycleNotEmitted(graph, kahn, c);
      }
    }
  }

  lemma CycleNotEmitted(graph: Graph, kahn: seq<string>, c: seq<string>)
    requires Emitted(graph, kahn) && IsCycle(EdgesOf(WorkEntries(graph)), c)
    ensures c[0] !in kahn
  {
    if c[0] in kahn {
      EmittedAbove(graph, kahn, c);
      var g, m := EdgesOf(WorkEntries(graph)), Positions(kahn);
      var h := set e | e in g && e.1 in kahn;
      forall e | e in h ensures e.0 in m && e.1 in m && m[e.0] < m[e.1] {
        var j :| 0 <= j < |kahn| && kahn[j] == e.1;
        assert (e.0, kahn[j]) in WorkEntries(graph);
        var i :| 0 <= i < j && kahn[i] == e.0;
      }
      assert IsCycle(h, c);
      LevelForbidsCycle(h, m);
    }
  }

  /** A node held back, without anything stuck above it, is held back by another such node. */
  lemma HeldBackAbove(graph: Graph, kahn: seq<string>, x: string, y: string) returns (a: string)
    requires Emitted(graph, kahn) && y in WorkNodes(graph) && y !in kahn && Reaches(EdgesOf(WorkEntries(graph)), y, x)
    requires !Stuck(graph, y)
    ensures (a, y) in EdgesOf(WorkEntries(graph)) && a in WorkNodes(graph) && a !in kahn
    ensures Reaches(EdgesOf(WorkEntries(graph)), a, x)
  {
    WorkEntryEnds(graph);
    assert HeldBack(graph, kahn, y);
    a :| (a, y) in WorkEntries(graph) && a !in kahn;
    var p :| WalkFromTo(EdgesOf(WorkEntries(graph)), p, y, x);
    WalkPrepend(EdgesOf(WorkEntries(graph)), a, p);
  }

  lemma CycleAbove(g: Edges, h: Edges, x: string)
    requires h <= g && HasCycle(h) && forall e :: e in h ==> Reaches(g, e.0, x)
    ensures exists c :: IsCycle(g, c) && Reaches(g, c[0], x)
  {
    var c :| IsCycle(h, c);
    assert (c[0], c[1]) in h && IsCycle(g, c);
  }

  /** Whatever is not emitted has a stuck node or a cycle above it. */
  lemma NotEmittedIsBlocked(graph: Graph, kahn: seq<string>, x: string)
    requires Emitted(graph, kahn) && x in WorkNodes(graph) && x !in kahn
    ensures Blocked(graph, x)
  {
    var g := EdgesOf(WorkEntries(graph));
    var above := set y | y in WorkNodes(graph) && y !in kahn && Reaches(g, y, x);
    ReachesSelf(g, x);
    assert x in above;
    if forall w :: w in above ==> !Stuck(graph, w) {
      var h := set e | e in g && e.0 in above && e.1 in above;
      forall y | y in above ensures HasPredecessorIn(h, above, y) {
        var a := HeldBackAbove(graph, kahn, x, y);
        assert a in above && (a, y) in h;
      }
      LeftoverHasCycle(h, above);
      CycleAbove(g, h, x);
    }
  }

  /** The result lists every work node once. */
  lemma OrderIsPermutation(graph: Graph, kahn: seq<string>)
    requires Finalized(graph) && Emitted(graph, kahn)
    ensures var order := kahn + Others(WorkNodes(graph), Elements(kahn));
            Distinct(order) && Elements(order) == Elements(WorkNodes(graph))
  {
    OthersMembers(WorkNodes(graph), Elements(kahn));
    DistinctAppend(kahn, Others(WorkNodes(graph), Elements(kahn)));
  }

  lemma BeforeInConcat(s: seq<string>, t: seq<string>, a: string, b: string)
    requires Distinct(s + t)
    ensures b in s ==> (Before(s + t, a, b) <==> Before(s, a, b))
    ensures a in s && b in t ==> Before(s + t, a, b)
    ensures a in t && b in t ==> (Before(s + t, a, b) <==> Before(t, a, b))
  {
    var u := s + t;
    DistinctParts(s, t);
    if Before(s, a, b) {
      var i, j :| 0 <= i < j < |s| && s[i] == a && s[j] == b;
      assert u[i] == a && u[j] == b;
    }
    if Before(t, a, b) {
      var i, j :| 0 <= i < j < |t| && t[i] == a && t[j] == b;
      assert u[|s| + i] == a && u[|s| + j] == b;
    }
    if a in s && b in t {
      var i :| 0 <= i < |s| && s[i] == a;
      var j :| 0 <= j < |t| && t[j] == b;
      assert u[i] == a && u[|s| + j] == b;
    }
    if Before(u, a, b) {
      var i, j :| 0 <= i < j < |u| && u[i] == a && u[j] == b;
      assert u[i] == if i < |s| then s[i] else t[i - |s|];
      assert u[j] == if j < |s| then s[j] else t[j - |s|];
      assert b in s ==> b !in Elements(t);
      assert a in t ==> a !in Elements(s);
      if b in s {
        assert s[i] == a && s[j] == b;
      }
      if a in t {
        assert t[i - |s|] == a && t[j - |s|] == b;
      }
    }
  }

  /**
   A parent edge between work nodes goes forward in the order unless both ends are held back; then it goes
   forward exactly when the parent was recorded first.
   */
  lemma EdgeGoesForward(graph: Graph, kahn: seq<string>, a: string, b: string)
    requires Finalized(graph) && Emitted(graph, kahn) && (a, b) in WorkEntries(graph)
    ensures Before(kahn + Others(WorkNodes(graph), Elements(kahn)), a, b) <==>
              !Blocked(graph, a) || Before(WorkNodes(graph), a, b)
  {
    WorkEntryEnds(graph);
    var rest := Others(WorkNodes(graph), Elements(kahn));
    OthersMembers(WorkNodes(graph), Elements(kahn));
    OrderIsPermutation(graph, kahn);
    BeforeInConcat(kahn, rest, a, b);
    if b in kahn {
      var j :| 0 <= j < |kahn| && kahn[j] == b;
      assert a in kahn[..j];
      var i :| 0 <= i < j && kahn[..j][i] == a;
      assert kahn[i] == a;
      assert Before(kahn, a, b);
    }
    if a in kahn {
      EmittedNotBlocked(graph, kahn, a);
    } else {
      NotEmittedIsBlocked(graph, kahn, a);
      assert b !in kahn;
      OthersKeepOrder(WorkNodes(graph), Elements(kahn), a, b);
    }
  }

  /** With acyclic parent edges that all join recorded work nodes with non-empty ids, every edge goes forward. */
  lemma RecordedAcyclicIsOrdered(graph: Graph, kahn: seq<string>, a: string, b: string)
    requires Finalized(graph) && Emitted(graph, kahn)
    requires !HasCycle(ParentEdges(graph.edges)) && "" !in WorkNodes(graph)
    requires forall e :: e in ParentEdges(graph.edges) ==> e.0 in WorkNodes(graph) && e.1 in WorkNodes(graph)
    requires (a, b) in ParentEdges(graph.edges)
    ensures Before(kahn + Others(WorkNodes(graph), Elements(kahn)), a, b)
  {
    var g := ParentEdges(graph.edges);
    forall e ensures e in WorkEntries(graph) <==> e in g {
      BetweenMembers(ParentEntries(graph.edges), Elements(WorkNodes(graph)), e);
    }
    assert EdgesOf(WorkEntries(graph)) == g;
    forall w | w in WorkNodes(graph) ensures !Stuck(graph, w) {
      if w in Children(g) {
        var e :| e in g && e.1 == w;
        assert (e.0, w) in WorkEntries(graph);
      }
    }
    EdgeGoesForward(graph, kahn, a, b);
  }

  lemma {:induction false} WorkIdsDistinct(keys: seq<string>, nodes: seq<DG.Node>)
    requires |keys| == |nodes| && Distinct(keys) && forall i :: 0 <= i < |keys| ==> nodes[i].messageId == keys[i]
    ensures Distinct(WorkIds(nodes, {})) && forall x :: x in WorkIds(nodes, {}) ==> x in keys
  {
    if nodes == [] {
    } else {
      var n := |nodes| - 1;
      WorkIdsDistinct(keys[..n], nodes[..n]);
      if !nodes[n].kind.ResponseNode? {
        assert forall i :: 0 <= i < n ==> keys[..n][i] != keys[n];
        DistinctAppend(WorkIds(nodes[..n], {}), [keys[n]]);
      }
      assert keys == keys[..n] + [keys[n]];
    }
  }

  /** The graph finalized from any log, coherent or not, meets the conditions of the ordering results. */
  lemma LogGraphIsFinalized(log: seq<DG.Recording>)
    ensures Elements(DG.ApplyAll(log).keys) == DG.ApplyAll(log).nodes.Keys
    ensures Finalized(Finalize(DG.ApplyAll(log)))
  {
    LogKeys(log);
    LogIds(log);
    var s := DG.ApplyAll(log);
    forall i | 0 <= i < |s.keys| ensures NodeList(s)[i].messageId == s.keys[i] {
      assert s.keys[i] in Elements(s.keys);
    }
    WorkIdsDistinct(s.keys, NodeList(s));
  }
}
