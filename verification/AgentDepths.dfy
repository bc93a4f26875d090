/**
 Depths of agents along delegation links: the server's label-correcting queue, which keeps the larger
 label, and the console's, which keeps the smaller one. Both start from the agents without a
 delegating agent, or from all agents when there is none.
 */
module AgentDepths {
  import opened Graphs
  import opened LabelWorklist

  datatype Link = Link(fromAgent: string, toAgent: string, kind: string)

  const DELEGATION_EDGE_KINDS: set<string> := {"delegates", "subtask"}

  predicate Counts(agentIds: seq<string>, link: Link) {
    link.kind in DELEGATION_EDGE_KINDS && link.fromAgent in agentIds && link.toAgent in agentIds
  }

  /** The delegation edges between known agents. */
  function LinkEdges(agentIds: seq<string>, links: seq<Link>): Edges {
    set l | l in links && Counts(agentIds, l) :: (l.fromAgent, l.toAgent)
  }

  function Targets(g: Edges): set<string> {
    set e | e in g :: e.1
  }

  function Roots(agentIds: seq<string>, incoming: set<string>): (r: seq<string>)
    ensures forall a :: a in r <==> a in agentIds && a !in incoming
  {
    if agentIds == [] then [] else
      Roots(agentIds[..|agentIds| - 1], incoming) +
      if agentIds[|agentIds| - 1] in incoming then [] else [agentIds[|agentIds| - 1]]
  }

  /** Where a worklist starts. */
  function Starts(agentIds: seq<string>, g: Edges): seq<string> {
    var roots := Roots(agentIds, Targets(g));
    if roots != [] then roots else agentIds
  }

  /** Some delegates or subtask link leads from `a` to `b`, and both are known agents. */
  ghost predicate Delegates(agentIds: seq<string>, links: seq<Link>, a: string, b: string) {
    a in agentIds && b in agentIds &&
    exists l :: l in links && l.fromAgent == a && l.toAgent == b && (l.kind == "delegates" || l.kind == "subtask")
  }

  ghost predicate HasDelegator(agentIds: seq<string>, links: seq<Link>, a: string) {
    exists b :: Delegates(agentIds, links, b, a)
  }

  /** The graph of the links. */
  lemma LinkGraph(agentIds: seq<string>, links: seq<Link>, a: string, b: string)
    ensures (a, b) in LinkEdges(agentIds, links) <==> Delegates(agentIds, links, a, b)
  {
    if Delegates(agentIds, links, a, b) {
      var l :| l in links && l.fromAgent == a && l.toAgent == b && (l.kind == "delegates" || l.kind == "subtask");
      assert Counts(agentIds, l);
    }
  }

  lemma LinkTargets(agentIds: seq<string>, links: seq<Link>, a: string)
    ensures a in Targets(LinkEdges(agentIds, links)) <==> HasDelegator(agentIds, links, a)
  {
    if a in Targets(LinkEdges(agentIds, links)) {
      var e :| e in LinkEdges(agentIds, links) && e.1 == a;
      LinkGraph(agentIds, links, e.0, a);
    }
    if b :| Delegates(agentIds, links, b, a) {
      LinkGraph(agentIds, links, b, a);
      assert (b, a).1 == a;
    }
  }

  /** The worklist starts at the agents nobody delegates to, or at all agents when there is none. */
  lemma StartAgents(agentIds: seq<string>, links: seq<Link>)
    ensures var starts := Starts(agentIds, LinkEdges(agentIds, links));
            if exists a :: a in agentIds && !HasDelegator(agentIds, links, a)
            then forall a :: a in starts <==> a in agentIds && !HasDelegator(agentIds, links, a)
            else starts == agentIds
  {
    var roots := Roots(agentIds, Targets(LinkEdges(agentIds, links)));
    forall a ensures a in roots <==> a in agentIds && !HasDelegator(agentIds, links, a) {
      LinkTargets(agentIds, links, a);
    }
    assert roots != [] ==> roots[0] in roots;
  }

  // ----- The two functions -----

  /** `depths` gives each known agent its label, and 0 to the agents never labelled. */
  ghost predicate DepthsFollow(agents: seq<string>, depths: map<string, nat>, best: map<string, nat>) {
    depths.Keys == Elements(agents) && best.Keys <= depths.Keys &&
    forall a :: a in depths ==> depths[a] == if a in best then best[a] else 0
  }

  /** Every agent starts at depth 0 with no delegation target. */
  method EmptyAdjacency(agentIds: seq<string>) returns (depths: map<string, nat>, adjacency: map<string, seq<string>>)
    ensures depths.Keys == adjacency.Keys == Elements(agentIds)
    ensures forall a :: a in depths ==> depths[a] == 0 && adjacency[a] == []
  {
    depths, adjacency := map[], map[];
    for i := 0 to |agentIds|
      invariant depths.Keys == adjacency.Keys == Elements(agentIds[..i])
      invariant forall a :: a in depths ==> depths[a] == 0 && adjacency[a] == []
    {
      depths, adjacency := depths[agentIds[i] := 0], adjacency[agentIds[i] := []];
      assert agentIds[..i + 1] == agentIds[..i] + [agentIds[i]];
    }
    assert agentIds[..|agentIds|] == agentIds;
  }

  ghost predicate DistinctKids(adjacency: map<string, seq<string>>) {
    forall a :: a in adjacency ==> Distinct(adjacency[a])
  }

  /** Put one edge into the adjacency sets. */
  method AddTarget(before: map<string, seq<string>>, from: string, to: string, ghost g: Edges)
    returns (adjacency: map<string, seq<string>>)
    requires from in before && AdjacencyOf(g, before) && DistinctKids(before)
    ensures adjacency.Keys == before.Keys && AdjacencyOf(g + {(from, to)}, adjacency) && DistinctKids(adjacency)
  {
    adjacency := before;
    var targets := before[from];
    assert forall b :: b in targets <==> b in Kids(before, from);
    if to !in targets {
      DistinctAppend(targets, [to]);
      adjacency := adjacency[from := targets + [to]];
    }
    forall a, b ensures b in Kids(adjacency, a) <==> (a, b) in g + {(from, to)} {
      assert b in Kids(before, a) <==> (a, b) in g;
    }
  }

  /** Adjacency sets in insertion order, and the agents some other agent delegates to. */
  method BuildAdjacency(agentIds: seq<string>, links: seq<Link>)
    returns (depths: map<string, nat>, adjacency: map<string, seq<string>>, incoming: set<string>)
    ensures DepthsFollow(agentIds, depths, map[])
    ensures AdjacencyOf(LinkEdges(agentIds, links), adjacency) && DistinctKids(adjacency)
    ensures incoming == Targets(LinkEdges(agentIds, links))
  {
    depths, adjacency := EmptyAdjacency(agentIds);
    incoming := {};
    ghost var g: Edges := {};
    for i := 0 to |links|
      invariant g == LinkEdges(agentIds, links[..i])
      invariant adjacency.Keys == Elements(agentIds) && AdjacencyOf(g, adjacency) && DistinctKids(adjacency)
      invariant incoming == Targets(g)
    {
      var link := links[i];
      LinkEdgesGrow(agentIds, links, i);
      if link.kind in DELEGATION_EDGE_KINDS && link.fromAgent in adjacency && link.toAgent in adjacency {
        adjacency := AddTarget(adjacency, link.fromAgent, link.toAgent, g);
        incoming := incoming + {link.toAgent};
        g := g + {(link.fromAgent, link.toAgent)};
      }
    }
    assert links[..|links|] == links;
  }

  lemma LinkEdgesGrow(agentIds: seq<string>, links: seq<Link>, i: nat)
    requires i < |links|
    ensures LinkEdges(agentIds, links[..i + 1]) ==
            LinkEdges(agentIds, links[..i]) +
            if Counts(agentIds, links[i]) then {(links[i].fromAgent, links[i].toAgent)} else {}
  {
    assert links[..i + 1] == links[..i] + [links[i]];
  }

  method StartQueue(agentIds: seq<string>, incoming: set<string>) returns (starts: seq<string>)
    ensures forall g :: Targets(g) == incoming ==> starts == Starts(agentIds, g)
  {
    starts := [];
    for i := 0 to |agentIds|
      invariant starts == Roots(agentIds[..i], incoming)
    {
      assert agentIds[..i + 1][..i] == agentIds[..i];
      if agentIds[i] !in incoming {
        starts := starts + [agentIds[i]];
      }
    }
    assert agentIds[..|agentIds|] == agentIds;
    if starts == [] {
      starts := agentIds;
    }
  }

  lemma StartsRun(agentIds: seq<string>, links: seq<Link>, adjacency: map<string, seq<string>>)
    requires AdjacencyOf(LinkEdges(agentIds, links), adjacency)
    ensures var g := LinkEdges(agentIds, links);
            RunsOn(g, adjacency, agentIds, Elements(Starts(agentIds, g)))
  {
  }

  /** One turn of the worklist loop: offer the next label to every target of the agent at the head. */
  method OfferLabels(mode: Preference, adjacency: map<string, seq<string>>, w: Work, depths0: map<string, nat>,
                     ghost agents: seq<string>)
    returns (w': Work, depths: map<string, nat>)
    requires w.head < |w.queue| && DepthsFollow(agents, depths0, w.best)
    requires Elements(Kids(adjacency, w.queue[w.head].0)) <= Elements(agents)
    ensures w' == Advance(mode, adjacency, w)
    ensures DepthsFollow(agents, depths, w'.best)
  {
    var kids, depth := Kids(adjacency, w.queue[w.head].0), w.queue[w.head].1 + 1;
    depths := depths0;
    w' := w.(head := w.head + 1);
    for j := 0 to |kids|
      invariant Relax(mode, w', kids, depth, j) == Advance(mode, adjacency, w)
      invariant DepthsFollow(agents, depths, w'.best)
    {
      var b := kids[j];
      assert b in Elements(kids);
      if !(b in w'.best && !mode.Replaces(depth, w'.best[b])) {
        w' := w'.(queue := w'.queue + [(b, depth)], best := w'.best[b := depth]);
        depths := depths[b := depth];
      }
    }
  }

  /** The worklist loop, on any graph where it comes to an end. */
  method RunWorklist(mode: Preference, agentIds: seq<string>, adjacency: map<string, seq<string>>, starts: seq<string>,
                     zero: map<string, nat>, ghost g: Edges)
    returns (depths: map<string, nat>)
    requires RunsOn(g, adjacency, agentIds, Elements(starts)) && EndsOn(mode, g, Elements(starts))
    requires DepthsFollow(agentIds, zero, map[])
    ensures depths.Keys == Elements(agentIds)
    ensures forall a :: a in depths ==> DepthIs(mode, g, Elements(starts), a, depths[a])
  {
    var w := Initial(starts);
    InitialInvariant(mode, g, starts);
    depths := zero;
    while w.head < |w.queue|
      invariant WorkInvariant(mode, g, Elements(starts), w) && DepthsFollow(agentIds, depths, w.best)
      decreases Unlabelled(agentIds, w.best), TotalCost(mode, |Elements(agentIds)|, agentIds, w.best),
                |w.queue| - w.head
    {
      Turn(mode, g, adjacency, agentIds, Elements(starts), w);
      var (agent, depth) := w.queue[w.head];
      KidsAreAgents(g, adjacency, agentIds, agent);
      w, depths := OfferLabels(mode, adjacency, w, depths, agentIds);
    }
    forall a | a in depths ensures DepthIs(mode, g, Elements(starts), a, depths[a]) {
      FinalLabels(mode, g, Elements(starts), w, a);
    }
  }

  lemma KidsAreAgents(g: Edges, adjacency: map<string, seq<string>>, agents: seq<string>, a: string)
    requires AdjacencyOf(g, adjacency) && forall e :: e in g ==> e.1 in agents
    ensures Elements(Kids(adjacency, a)) <= Elements(agents)
  {
    forall b | b in Kids(adjacency, a) ensures b in Elements(agents) {
      assert (a, b) in g;
    }
  }

  /** A reachable agent has its best depth, any other agent 0. */
  ghost predicate DepthIs(mode: Preference, g: Edges, starts: set<string>, a: string, d: nat) {
    if Reachable(g, starts, a) then BestDepth(mode, g, starts, a, d) else d == 0
  }

  /** The starts of the worklist over a set of links. */
  ghost function LinkStarts(agentIds: seq<string>, links: seq<Link>): set<string> {
    Elements(Starts(agentIds, LinkEdges(agentIds, links)))
  }

  /** Server side: the longest chain from a start. Its loop ends exactly when the precondition holds. */
  method ComputeAgentDepths(agentIds: seq<string>, links: seq<Link>) returns (depths: map<string, nat>)
    requires !CycleReachable(LinkEdges(agentIds, links), LinkStarts(agentIds, links))
    ensures depths.Keys == Elements(agentIds)
    ensures forall a :: a in depths ==>
            DepthIs(Longest, LinkEdges(agentIds, links), LinkStarts(agentIds, links), a, depths[a])
  {
    var zero, adjacency, incoming := BuildAdjacency(agentIds, links);
    var starts := StartQueue(agentIds, incoming);
    StartsRun(agentIds, links, adjacency);
    depths := RunWorklist(Longest, agentIds, adjacency, starts, zero, LinkEdges(agentIds, links));
  }

  /** Console side: the shortest distance from a start, for every set of links. */
  method ComputeOpsGraphAgentDepths(agentIds: seq<string>, links: seq<Link>) returns (depths: map<string, nat>)
    ensures depths.Keys == Elements(agentIds)
    ensures forall a :: a in depths ==>
            DepthIs(Shortest, LinkEdges(agentIds, links), LinkStarts(agentIds, links), a, depths[a])
  {
    var zero, adjacency, incoming := BuildAdjacency(agentIds, links);
    var starts := StartQueue(agentIds, incoming);
    StartsRun(agentIds, links, adjacency);
    depths := RunWorklist(Shortest, agentIds, adjacency, starts, zero, LinkEdges(agentIds, links));
  }

  // ----- Comparing the two -----

  lemma RootsAreStarts(agentIds: seq<string>, g: Edges, r: string)
    requires r in agentIds && r !in Targets(g)
    ensures r in Starts(agentIds, g) && forall s :: s in Starts(agentIds, g) ==> s !in Targets(g)
  {
  }

  /** In an acyclic graph every agent is reached from an agent nobody delegates to. */
  lemma AcyclicHasRootAbove(agentIds: seq<string>, g: Edges, x: string) returns (r: string)
    requires !HasCycle(g) && x in agentIds && forall e :: e in g ==> e.0 in agentIds
    ensures r in agentIds && r !in Targets(g) && Reaches(g, r, x)
  {
    var above := set a | a in agentIds && Reaches(g, a, x);
    ReachesSelf(g, x);
    assert x in above;
    if forall a :: a in above ==> a in Targets(g) {
      forall a | a in above ensures HasPredecessorIn(g, above, a) {
        var e :| e in g && e.1 == a;
        assert Reaches(g, e.0, a) by { assert WalkFromTo(g, [e.0, a], e.0, a); }
        ReachesTransitive(g, e.0, a, x);
      }
      LeftoverHasCycle(g, above);
      assert false;
    }
    r :| r in above && r !in Targets(g);
  }

  /** On acyclic links the server's depth is the length of the longest delegation chain ending in the agent. */
  lemma AcyclicDepthIsLongestChain(agentIds: seq<string>, links: seq<Link>, x: string, d: nat)
    requires !HasCycle(LinkEdges(agentIds, links)) && x in agentIds
    requires DepthIs(Longest, LinkEdges(agentIds, links), LinkStarts(agentIds, links), x, d)
    ensures LongestChainTo(LinkEdges(agentIds, links), x, d)
    ensures !CycleReachable(LinkEdges(agentIds, links), LinkStarts(agentIds, links))
  {
    var g, starts := LinkEdges(agentIds, links), LinkStarts(agentIds, links);
    AcyclicChainExtends(agentIds, links, [x], x);
    forall p | IsWalk(g, p) && p[|p| - 1] == x ensures |p| <= d + 1 {
      AcyclicChainExtends(agentIds, links, p, x);
    }
  }

  /** On acyclic links every chain is the end of one that begins in a start. */
  lemma AcyclicChainExtends(agentIds: seq<string>, links: seq<Link>, p: seq<string>, x: string)
    requires !HasCycle(LinkEdges(agentIds, links)) && x in agentIds
    requires IsWalk(LinkEdges(agentIds, links), p) && p[|p| - 1] == x
    ensures exists q, d: nat ::
              StartWalk(LinkEdges(agentIds, links), LinkStarts(agentIds, links), q, x, d) && d + 1 >= |p|
  {
    var g := LinkEdges(agentIds, links);
    if |p| > 1 {
      assert (p[0], p[1]) in g;
    }
    var r := AcyclicHasRootAbove(agentIds, g, p[0]);
    RootsAreStarts(agentIds, g, r);
    var q :| WalkFromTo(g, q, r, p[0]);
    WalkConcat(g, q, p);
    assert StartWalk(g, LinkStarts(agentIds, links), q + p[1..], x, |q| + |p| - 2);
  }

  lemma {:induction false} NoRoots(agentIds: seq<string>, incoming: set<string>)
    requires forall a :: a in agentIds ==> a in incoming
    ensures Roots(agentIds, incoming) == []
  {
    if agentIds == [] {
    } else {
      NoRoots(agentIds[..|agentIds| - 1], incoming);
    }
  }

  /** With agents but without a root every agent starts the worklist, and one of them is on a cycle. */
  lemma NoRootReachesCycle(agentIds: seq<string>, links: seq<Link>)
    requires agentIds != [] && forall a :: a in agentIds ==> a in Targets(LinkEdges(agentIds, links))
    ensures CycleReachable(LinkEdges(agentIds, links), LinkStarts(agentIds, links))
  {
    var g := LinkEdges(agentIds, links);
    if !HasCycle(g) {
      var r := AcyclicHasRootAbove(agentIds, g, agentIds[0]);
      assert false;
    }
    var c :| IsCycle(g, c);
    assert (c[0], c[1]) in g;
    NoRoots(agentIds, Targets(g));
    assert StartWalk(g, LinkStarts(agentIds, links), [c[0]], c[0], 0);
  }

  /** Then the longest-label worklist, whatever the order of its adjacency sets, has work left after every turn. */
  lemma NoRootNeverEnds(agentIds: seq<string>, links: seq<Link>, adjacency: map<string, seq<string>>, n: nat)
    requires agentIds != [] && forall a :: a in agentIds ==> a in Targets(LinkEdges(agentIds, links))
    requires AdjacencyOf(LinkEdges(agentIds, links), adjacency)
    ensures var w := After(Longest, adjacency, Initial(Starts(agentIds, LinkEdges(agentIds, links))), n);
            w.head < |w.queue|
  {
    var g := LinkEdges(agentIds, links);
    var starts := Starts(agentIds, g);
    NoRootReachesCycle(agentIds, links);
    StartsRun(agentIds, links, adjacency);
    EndsExactlyWithoutReachableCycle(Longest, g, adjacency, agentIds, starts);
    InitialInvariant(Longest, g, starts);
    AfterKeeps(Longest, g, adjacency, Elements(starts), Initial(starts), n);
  }

  /** Two agents that delegate to each other: the server's loop never ends on them. */
  lemma MutualDelegationNeverEnds() returns (agentIds: seq<string>, links: seq<Link>)
    ensures agentIds == ["a", "b"] && links == [Link("a", "b", "delegates"), Link("b", "a", "delegates")]
    ensures forall adjacency, n: nat :: AdjacencyOf(LinkEdges(agentIds, links), adjacency) ==>
              var w := After(Longest, adjacency, Initial(Starts(agentIds, LinkEdges(agentIds, links))), n);
              w.head < |w.queue|
  {
    agentIds, links := ["a", "b"], [Link("a", "b", "delegates"), Link("b", "a", "delegates")];
    var g := LinkEdges(agentIds, links);
    assert links[0] in links && links[1] in links && agentIds[0] in agentIds && agentIds[1] in agentIds;
    assert ("a", "b") in g && ("b", "a") in g;
    forall adjacency, n: nat | AdjacencyOf(g, adjacency)
      ensures var w := After(Longest, adjacency, Initial(Starts(agentIds, g)), n); w.head < |w.queue|
    {
      NoRootNeverEnds(agentIds, links, adjacency, n);
    }
  }

  /** All walks from a start to `x` have the same length. */
  ghost predicate OneLength(g: Edges, starts: set<string>, x: string) {
    forall p, q, d, e :: StartWalk(g, starts, p, x, d) && StartWalk(g, starts, q, x, e) ==> d == e
  }

  /** The console never shows an agent deeper than the server, and equally deep exactly when all walks to it agree. */
  lemma DepthsCompared(g: Edges, starts: set<string>, x: string, server: nat, console: nat)
    requires DepthIs(Longest, g, starts, x, server) && DepthIs(Shortest, g, starts, x, console)
    ensures console <= server
    ensures console == server <==> OneLength(g, starts, x)
  {
    if Reachable(g, starts, x) {
      var p :| StartWalk(g, starts, p, x, server);
      var q :| StartWalk(g, starts, q, x, console);
    }
  }

  /** Level 0 on the starts, and one more along every edge out of a reachable agent. */
  ghost predicate IsLevelling(g: Edges, starts: set<string>, level: map<string, nat>) {
    (forall s :: s in starts ==> s in level && level[s] == 0) &&
    forall e :: e in g && Reachable(g, starts, e.0) ==> e.0 in level && e.1 in level && level[e.1] == level[e.0] + 1
  }

  lemma {:induction false} LevelledWalk(g: Edges, starts: set<string>, level: map<string, nat>, p: seq<string>,
                                        x: string, d: nat)
    requires IsLevelling(g, starts, level) && StartWalk(g, starts, p, x, d)
    ensures x in level && level[x] == d
    decreases d
  {
    if d == 0 {
    } else {
      assert (p[d - 1], p[d]) in g && StartWalk(g, starts, p[..d], p[d - 1], d - 1);
      LevelledWalk(g, starts, level, p[..d], p[d - 1], d - 1);
    }
  }

  /** Depths that agree everywhere are such levels. */
  lemma AgreeingIsLevelling(g: Edges, starts: set<string>, depths: map<string, nat>)
    requires starts <= depths.Keys && forall e :: e in g ==> e.1 in depths
    requires forall x :: x in depths ==> DepthIs(Longest, g, starts, x, depths[x])
    requires forall x :: x in depths ==> DepthIs(Shortest, g, starts, x, depths[x])
    ensures IsLevelling(g, starts, depths)
  {
    forall s | s in starts ensures depths[s] == 0 {
      assert StartWalk(g, starts, [s], s, 0);
    }
    forall e | e in g && Reachable(g, starts, e.0) ensures e.0 in depths && depths[e.1] == depths[e.0] + 1 {
      var p, d :| StartWalk(g, starts, p, e.0, d);
      if d > 0 {
        assert (p[d - 1], p[d]) in g;
      }
      var q :| StartWalk(g, starts, q, e.0, depths[e.0]);
      WalkExtend(g, q, e.1);
      assert StartWalk(g, starts, q + [e.1], e.1, depths[e.0] + 1);
    }
  }

  /**
   The same edge by edge: on any links on which the server's loop ends, both sides show the same depths if and only
   if the agents have levels, 0 on the starts and one more along every link out of a reachable agent.
   */
  lemma DepthsAgreeExactly(agentIds: seq<string>, links: seq<Link>, server: map<string, nat>, console: map<string, nat>)
    requires server.Keys == console.Keys == Elements(agentIds)
    requires forall x :: x in server ==>
               DepthIs(Longest, LinkEdges(agentIds, links), LinkStarts(agentIds, links), x, server[x])
    requires forall x :: x in console ==>
               DepthIs(Shortest, LinkEdges(agentIds, links), LinkStarts(agentIds, links), x, console[x])
    ensures server == console <==>
              exists level :: IsLevelling(LinkEdges(agentIds, links), LinkStarts(agentIds, links), level)
  {
    var g, starts := LinkEdges(agentIds, links), LinkStarts(agentIds, links);
    if server == console {
      AgreeingIsLevelling(g, starts, server);
    }
    if level :| IsLevelling(g, starts, level) {
      forall x | x in server ensures server[x] == console[x] {
        DepthsCompared(g, starts, x, server[x], console[x]);
        forall p, q, d, e | StartWalk(g, starts, p, x, d) && StartWalk(g, starts, q, x, e) ensures d == e {
          LevelledWalk(g, starts, level, p, x, d);
          LevelledWalk(g, starts, level, q, x, e);
        }
      }
    }
  }

  /**
   The two sides do differ: where "a" delegates to "b" and "c" and "b" delegates to "c", the server shows "c" at
   depth 2 and the console at depth 1.
   */
  lemma DepthsDiffer() returns (agentIds: seq<string>, links: seq<Link>)
    ensures !HasCycle(LinkEdges(agentIds, links)) && "c" in agentIds
    ensures DepthIs(Longest, LinkEdges(agentIds, links), LinkStarts(agentIds, links), "c", 2)
    ensures DepthIs(Shortest, LinkEdges(agentIds, links), LinkStarts(agentIds, links), "c", 1)
  {
    agentIds := ["a", "b", "c"];
    links := [Link("a", "b", "delegates"), Link("b", "c", "delegates"), Link("a", "c", "subtask")];
    TriangleEdges(agentIds, links);
    TriangleDepths(LinkEdges(agentIds, links), LinkStarts(agentIds, links));
  }

  lemma TriangleDepths(g: Edges, starts: set<string>)
    requires g == {("a", "b"), ("b", "c"), ("a", "c")} && starts == {"a"}
    ensures !HasCycle(g) && DepthIs(Longest, g, starts, "c", 2) && DepthIs(Shortest, g, starts, "c", 1)
  {
    var level := map["a" := 0, "b" := 1, "c" := 2];
    assert forall e :: e in g ==> e.0 in level && e.1 in level && level[e.0] < level[e.1];
    LevelForbidsCycle(g, level);
    assert StartWalk(g, starts, ["a", "b", "c"], "c", 2);
    assert StartWalk(g, starts, ["a", "c"], "c", 1);
    forall p, e | StartWalk(g, starts, p, "c", e) ensures 1 <= e <= 2 {
      LevelBoundsWalk(g, level, p);
    }
  }

  lemma TriangleEdges(agentIds: seq<string>, links: seq<Link>)
    requires agentIds == ["a", "b", "c"]
    requires links == [Link("a", "b", "delegates"), Link("b", "c", "delegates"), Link("a", "c", "subtask")]
    ensures LinkEdges(agentIds, links) == {("a", "b"), ("b", "c"), ("a", "c")}
    ensures LinkStarts(agentIds, links) == {"a"}
  {
    var g := LinkEdges(agentIds, links);
    assert links[0] in links && links[1] in links && links[2] in links;
    assert g == {("a", "b"), ("b", "c"), ("a", "c")};
    assert ("a", "b") in g && ("b", "c") in g;
    assert Targets(g) == {"b", "c"};
    assert agentIds[0] == "a";
    assert "a" in Roots(agentIds, Targets(g));
  }

  ghost predicate AtMostOneDelegator(g: Edges) {
    forall a, b, c :: (a, c) in g && (b, c) in g ==> a == b
  }

  lemma WalkEndsInTarget(g: Edges, p: seq<string>)
    requires IsWalk(g, p)
    ensures |p| > 1 ==> p[|p| - 1] in Targets(g)
  {
    if |p| > 1 {
      assert (p[|p| - 2], p[|p| - 1]) in g;
    }
  }

  lemma {:induction false} ForestWalks(g: Edges, starts: set<string>, p: seq<string>, q: seq<string>, x: string,
                                       d: nat, e: nat)
    requires AtMostOneDelegator(g) && forall s :: s in starts ==> s !in Targets(g)
    requires StartWalk(g, starts, p, x, d) && StartWalk(g, starts, q, x, e)
    ensures d == e
    decreases d
  {
    WalkEndsInTarget(g, p);
    WalkEndsInTarget(g, q);
    if d == 0 || e == 0 {
    } else {
      assert (p[d - 1], p[d]) in g && (q[e - 1], q[e]) in g;
      ForestWalks(g, starts, p[..d], q[..e], p[d - 1], d - 1, e - 1);
    }
  }

  /** With at most one delegating agent per agent, and where the server ends at all, both give the same depths. */
  lemma ForestDepthsAgree(agentIds: seq<string>, links: seq<Link>, x: string, server: nat, console: nat)
    requires var g, starts := LinkEdges(agentIds, links), LinkStarts(agentIds, links);
             AtMostOneDelegator(g) && !CycleReachable(g, starts) && x in agentIds &&
             DepthIs(Longest, g, starts, x, server) && DepthIs(Shortest, g, starts, x, console)
    ensures server == console
  {
    var g, starts := LinkEdges(agentIds, links), LinkStarts(agentIds, links);
    DepthsCompared(g, starts, x, server, console);
    if forall a :: a in agentIds ==> a in Targets(g) {
      NoRootReachesCycle(agentIds, links);
    } else {
      var r :| r in agentIds && r !in Targets(g);
      RootsAreStarts(agentIds, g, r);
      forall p, q, d, e | StartWalk(g, starts, p, x, d) && StartWalk(g, starts, q, x, e) ensures d == e {
        ForestWalks(g, starts, p, q, x, d, e);
      }
    }
  }
}
