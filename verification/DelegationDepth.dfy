/** Roots, leaves and depth of a delegation graph; the depth comes from one depth-first walk per root. */
module DelegationDepth {
  import opened Graphs
  import opened DependencyCounts
  import opened DepthWalk
  import opened Protocol
  import opened Wrappers
  import DG = DelegationGraph

  datatype Graph = Graph(nodes: seq<DG.Node>, edges: seq<DG.Edge>, roots: seq<string>, leaves: seq<string>, depth: nat)

  /** Only `delegates` and `subtask` edges shape the hierarchy. */
  function ParentEntries(edges: seq<DG.Edge>): Entries {
    if edges == [] then [] else
      var last := edges[|edges| - 1];
      ParentEntries(edges[..|edges| - 1]) + if last.kind.RespondsTo? then [] else [(last.source, last.target)]
  }

  function ParentEdges(edges: seq<DG.Edge>): Edges {
    EdgesOf(ParentEntries(edges))
  }

  /** The ids of the work nodes that satisfy a test, in node order. */
  function WorkIds(nodes: seq<DG.Node>, excluded: set<string>): seq<string> {
    if nodes == [] then [] else
      var last := nodes[|nodes| - 1];
      WorkIds(nodes[..|nodes| - 1], excluded) +
      if last.kind.ResponseNode? || last.messageId in excluded then [] else [last.messageId]
  }

  function Children(g: Edges): set<string> {
    set e | e in g :: e.1
  }

  function Parents(g: Edges): set<string> {
    set e | e in g :: e.0
  }

  // ----- In a forest every walk from a root is a first chain -----

  /** No cycle can be reached from `node`. */
  ghost predicate AcyclicBelow(g: Edges, node: string) {
    forall c :: IsCycle(g, c) ==> !Reaches(g, node, c[0])
  }

  /** Where no cycle can be reached, every walk is a chain. */
  lemma AcyclicWalkIsChain(g: Edges, p: seq<string>)
    requires IsWalk(g, p) && AcyclicBelow(g, p[0])
    ensures IsChain(g, p)
  {
    if !Distinct(p) {
      var lo, hi := RepeatedNodeGivesCycle(g, p);
      SliceIsWalk(g, p, 0, lo + 1);
    }
  }

  ghost predicate AtMostOneParent(g: Edges) {
    forall a, b, c :: (a, c) in g && (b, c) in g ==> a == b
  }

  /** With at most one parent, the shorter of two walks to the same node is the end of the longer. */
  lemma {:induction false} WalksToSameNode(g: Edges, p: seq<string>, q: seq<string>)
    requires AtMostOneParent(g) && IsWalk(g, p) && IsWalk(g, q) && p[|p| - 1] == q[|q| - 1] && |p| <= |q|
    ensures forall i :: 0 <= i < |p| ==> q[|q| - |p| + i] == p[i]
    decreases |p|
  {
    var m, n := |p|, |q|;
    if m <= 1 {
    } else {
      var p', q' := p[..m - 1], q[..n - 1];
      assert (p[m - 2], p[m - 1]) in g && (q[n - 2], q[n - 1]) in g;
      assert p'[m - 2] == q'[n - 2];
      WalksToSameNode(g, p', q');
      forall i | 0 <= i < m ensures q[n - m + i] == p[i] {
        if i < m - 1 {
          assert q'[n - m + i] == p'[i];
        }
      }
    }
  }

  /** Two different children of a node that reaches no cycle have nothing below them in common. */
  lemma SiblingsDisjoint(g: Edges, node: string, a: string, b: string, x: string)
    requires AtMostOneParent(g) && AcyclicBelow(g, node)
    requires (node, a) in g && (node, b) in g && Reaches(g, a, x) && Reaches(g, b, x)
    ensures a == b
  {
    var p :| WalkFromTo(g, p, a, x);
    var q :| WalkFromTo(g, q, b, x);
    if |p| <= |q| {
      ChildBelowSibling(g, node, a, b, p, q);
    } else {
      ChildBelowSibling(g, node, b, a, q, p);
    }
  }

  lemma ChildBelowSibling(g: Edges, node: string, a: string, b: string, p: seq<string>, q: seq<string>)
    requires AtMostOneParent(g) && AcyclicBelow(g, node) && (node, a) in g && (node, b) in g
    requires IsWalk(g, p) && IsWalk(g, q) && p[0] == a && q[0] == b && p[|p| - 1] == q[|q| - 1] && |p| <= |q|
    ensures a == b
  {
    WalksToSameNode(g, p, q);
    var k := |q| - |p|;
    assert q[k + 0] == p[0];
    if k > 0 {
      assert (q[k - 1], q[k]) in g;
      assert q[k - 1] == node;
      SliceIsWalk(g, q, 0, k);
      var c := [node] + q[0..k];
      WalkPrepend(g, node, q[0..k]);
      assert IsCycle(g, c);
      ReachesSelf(g, node);
    }
  }

  lemma {:induction false} ForestWalkIsFirst(entries: Entries, path: set<string>, p: seq<string>)
    requires AtMostOneParent(EdgesOf(entries)) && IsChain(EdgesOf(entries), p) && AcyclicBelow(EdgesOf(entries), p[0])
    requires Elements(p) !! path
    ensures FirstChainPast(entries, path, p)
    decreases |p|
  {
    var g, x := EdgesOf(entries), p[|p| - 1];
    assert p[0] in Elements(p);
    if |p| == 1 {
    } else {
      var q, longer, kids := p[1..], path + {p[0]}, Targets(entries, p[0]);
      SliceIsWalk(g, p, 1, |p|);
      assert p[1..|p|] == q && p == [p[0]] + q;
      DistinctParts([p[0]], q);
      assert p[0] in Elements([p[0]]) && Elements(q) <= Elements(p);
      assert (p[0], p[1]) in g && WalkFromTo(g, [p[0], p[1]], p[0], p[1]);
      AcyclicBelowAll(g, p[0], p[1]);
      ForestWalkIsFirst(entries, longer, q);
      TargetsAreEntries(entries, p[0]);
      assert WalkFromTo(g, q, p[1], x);
      var l := FirstAt(kids, p[1]);
      forall k | 0 <= k < l ensures !ReachesPast(g, longer, kids[k], x) {
        if ReachesPast(g, longer, kids[k], x) {
          OutsideShrinks(g, {}, longer, kids[k], x);
          ReachesPastNone(g, kids[k], x);
          SiblingsDisjoint(g, p[0], kids[k], p[1], x);
        }
      }
    }
  }

  lemma AcyclicBelowAll(g: Edges, node: string, x: string)
    requires AcyclicBelow(g, node) && Reaches(g, node, x)
    ensures AcyclicBelow(g, x)
  {
    forall c | IsCycle(g, c) ensures !Reaches(g, x, c[0]) {
      if Reaches(g, x, c[0]) {
        ReachesTransitive(g, node, x, c[0]);
      }
    }
  }

  lemma {:induction false} FirstAt(nodes: seq<string>, b: string) returns (l: nat)
    requires b in nodes
    ensures l < |nodes| && nodes[l] == b && forall k :: 0 <= k < l ==> nodes[k] != b
  {
    if nodes[0] == b {
      l := 0;
    } else {
      assert nodes == [nodes[0]] + nodes[1..];
      l := FirstAt(nodes[1..], b);
      l := l + 1;
    }
  }

  // ----- finalizeDelegationGraph -----

  function Universe(entries: Entries, roots: seq<string>): set<string> {
    Elements(roots) + Children(EdgesOf(entries))
  }

  lemma UniverseHoldsTargets(entries: Entries, roots: seq<string>)
    ensures forall e :: e in entries ==> e.1 in Universe(entries, roots)
  {
    forall e | e in entries ensures e.1 in Universe(entries, roots) {
      assert e in EdgesOf(entries);
    }
  }

  /** The largest depth over the first `n` roots, each walked with a visited set of its own. */
  function DepthOfRoots(entries: Entries, roots: seq<string>, n: nat): nat
    requires n <= |roots|
  {
    if n == 0 then 0 else
      UniverseHoldsTargets(entries, roots);
      var rest, d := DepthOfRoots(entries, roots, n - 1),
        DepthFrom(entries, Universe(entries, roots), roots[n - 1], {}).0;
      if d > rest then d else rest
  }

  function NodeList(s: DG.State): seq<DG.Node>
    requires Elements(s.keys) == s.nodes.Keys
  {
    seq(|s.keys|, i requires 0 <= i < |s.keys| => (assert s.keys[i] in Elements(s.keys); s.nodes[s.keys[i]]))
  }

  function Finalize(s: DG.State): Graph
    requires Elements(s.keys) == s.nodes.Keys
  {
    var nodes, entries := NodeList(s), ParentEntries(s.edges);
    var roots := WorkIds(nodes, Children(EdgesOf(entries)));
    Graph(nodes, s.edges, roots, WorkIds(nodes, Parents(EdgesOf(entries))), DepthOfRoots(entries, roots, |roots|))
  }

  /** The child lists of the hierarchy, by source. */
  method CollectChildren(edges: seq<DG.Edge>) returns (children: map<string, seq<string>>)
    ensures ChildrenMatch(ParentEntries(edges), children)
  {
    children := map[];
    ghost var seen: Entries := [];
    for i := 0 to |edges|
      invariant seen == ParentEntries(edges[..i]) && ChildrenMatch(seen, children)
    {
      var edge := edges[i];
      assert edges[..i + 1][..i] == edges[..i];
      if !edge.kind.RespondsTo? {
        children := AddChild(edge.source, edge.target, children, seen);
        seen := seen + [(edge.source, edge.target)];
      }
    }
    assert edges[..|edges|] == edges;
  }

  /** The recursive walk; the visited set it extends is handed from one child to the next. */
  method WalkDepth(node: string, children: map<string, seq<string>>, visited: set<string>, ghost entries: Entries,
                   ghost universe: set<string>)
    returns (depth: nat, after: set<string>)
    requires ChildrenMatch(entries, children)
    requires node in universe && forall e :: e in entries ==> e.1 in universe
    ensures (depth, after) == DepthFrom(entries, universe, node, visited)
    decreases universe - visited, 0
  {
    if node in visited {
      return 0, visited;
    }
    var childIds := ChildrenOf(children, node);
    if |childIds| == 0 {
      return 1, visited + {node};
    }
    TargetsAreEntries(entries, node);
    var maxChild;
    maxChild, after := WalkChildren(childIds, children, visited + {node}, entries, universe);
    depth := 1 + maxChild;
  }

  method WalkChildren(childIds: seq<string>, children: map<string, seq<string>>, visited: set<string>,
                      ghost entries: Entries, ghost universe: set<string>)
    returns (maxChild: nat, after: set<string>)
    requires ChildrenMatch(entries, children)
    requires (forall c :: c in childIds ==> c in universe) && forall e :: e in entries ==> e.1 in universe
    ensures (maxChild, after) == DepthOfAll(entries, universe, childIds, visited)
    decreases universe - visited, |childIds| + 1
  {
    maxChild, after := 0, visited;
    for i := 0 to |childIds|
      invariant visited <= after
      invariant var (rest, last) := DepthOfAll(entries, universe, childIds[i..], after);
                DepthOfAll(entries, universe, childIds, visited) == (if maxChild > rest then maxChild else rest, last)
    {
      DepthOfRest(entries, universe, childIds, i, after);
      var d;
      d, after := WalkDepth(childIds[i], children, after, entries, universe);
      maxChild := if d > maxChild then d else maxChild;
    }
  }

  lemma DepthOfRest(entries: Entries, universe: set<string>, nodes: seq<string>, i: nat, visited: set<string>)
    requires i < |nodes|
    requires (forall c :: c in nodes ==> c in universe) && forall e :: e in entries ==> e.1 in universe
    ensures var (first, after) := DepthFrom(entries, universe, nodes[i], visited);
            var (rest, last) := DepthOfAll(entries, universe, nodes[i + 1..], after);
            DepthOfAll(entries, universe, nodes[i..], visited) == (if first > rest then first else rest, last)
  {
    assert nodes[i..][0] == nodes[i] && nodes[i..][1..] == nodes[i + 1..];
  }

  /** One root, with a visited set of its own. */
  method RootDepth(roots: seq<string>, i: nat, children: map<string, seq<string>>, ghost entries: Entries)
    returns (d: nat)
    requires i < |roots| && ChildrenMatch(entries, children)
    ensures DepthOfRoots(entries, roots, i + 1) ==
              if d > DepthOfRoots(entries, roots, i) then d else DepthOfRoots(entries, roots, i)
  {
    UniverseHoldsTargets(entries, roots);
    assert roots[i] in Elements(roots);
    ghost var universe := Universe(entries, roots);
    var after;
    d, after := WalkDepth(roots[i], children, {}, entries, universe);
  }

  method DeepestRoot(roots: seq<string>, children: map<string, seq<string>>, ghost entries: Entries)
    returns (depth: nat)
    requires ChildrenMatch(entries, children)
    ensures depth == DepthOfRoots(entries, roots, |roots|)
  {
    depth := 0;
    for i := 0 to |roots|
      invariant depth == DepthOfRoots(entries, roots, i)
    {
      var d := RootDepth(roots, i, children, entries);
      depth := if d > depth then d else depth;
    }
  }

  method ComputeDelegationDepth(roots: seq<string>, edges: seq<DG.Edge>) returns (depth: nat)
    ensures depth == DepthOfRoots(ParentEntries(edges), roots, |roots|)
  {
    if |roots| == 0 {
      return 0;
    }
    var children := CollectChildren(edges);
    depth := DeepestRoot(roots, children, ParentEntries(edges));
  }

  method FinalizeDelegationGraph(state: DG.MutableDelegationGraphState) returns (graph: Graph)
    requires Elements(state.keys) == state.nodes.Keys
    ensures graph == Finalize(state.View())
  {
    var nodes, edges := NodeList(state.View()), state.edges;
    var hierarchy := ParentEdges(edges);
    var roots := WorkIds(nodes, Children(hierarchy));
    var leaves := WorkIds(nodes, Parents(hierarchy));
    var depth := ComputeDelegationDepth(roots, edges);
    graph := Graph(nodes, edges, roots, leaves, depth);
  }

  /** The nodes of a state are listed once each, whatever was recorded. */
  lemma {:induction false} LogKeys(log: seq<DG.Recording>)
    ensures var s := DG.ApplyAll(log); Distinct(s.keys) && Elements(s.keys) == s.nodes.Keys
  {
    if log == [] {
    } else {
      LogKeys(log[..|log| - 1]);
      DG.KeysStep(log[|log| - 1], DG.ApplyAll(log[..|log| - 1]));
    }
  }

  /** And each stands under its own id. */
  lemma {:induction false} LogIds(log: seq<DG.Recording>)
    ensures forall id :: id in DG.ApplyAll(log).nodes ==> DG.ApplyAll(log).nodes[id].messageId == id
  {
    if log == [] {
    } else {
      LogIds(log[..|log| - 1]);
    }
  }

  /** Messages of a list as recordings that name no parent of their own. */
  function Unlinked(messages: seq<Message>): seq<DG.Recording> {
    seq(|messages|, i requires 0 <= i < |messages| => DG.Recording(messages[i], None))
  }

  /** The graph of a list of messages; there is none without messages or without a trace id. */
  method BuildDelegationGraphFromMessages(messages: seq<Message>) returns (graph: Option<Graph>)
    ensures graph.None? <==> messages == [] || messages[0].traceId == ""
    ensures var s := DG.ApplyAll(Unlinked(messages));
            Elements(s.keys) == s.nodes.Keys && (graph.Some? ==> graph.value == Finalize(s))
  {
    LogKeys(Unlinked(messages));
    if |messages| == 0 || messages[0].traceId == "" {
      return None;
    }
    var state := DG.BuildFromRecordings(messages[0].traceId, Unlinked(messages));
    var finalized := FinalizeDelegationGraph(state);
    graph := Some(finalized);
  }

  // ----- Roots and leaves -----

  /** A delegates or subtask edge ends in `x`. */
  ghost predicate HasParent(edges: seq<DG.Edge>, x: string) {
    exists e :: e in edges && (e.kind == DG.Delegates || e.kind == DG.Subtask) && e.target == x
  }

  /** A delegates or subtask edge starts in `x`. */
  ghost predicate HasChild(edges: seq<DG.Edge>, x: string) {
    exists e :: e in edges && (e.kind == DG.Delegates || e.kind == DG.Subtask) && e.source == x
  }

  /** `ids` lists, in node order, the ids of exactly the nodes at the positions `idx`. */
  ghost predicate ListsNodes(nodes: seq<DG.Node>, ids: seq<string>, idx: seq<nat>) {
    |idx| == |ids| && (forall i, j :: 0 <= i < j < |idx| ==> idx[i] < idx[j]) &&
    forall i :: 0 <= i < |idx| ==> idx[i] < |nodes| && ids[i] == nodes[idx[i]].messageId
  }

  /** The positions are those of the nodes that are no responses and whose ids are not excluded. */
  ghost predicate AreWork(nodes: seq<DG.Node>, excluded: set<string>, idx: seq<nat>) {
    forall j: nat :: j < |nodes| ==>
      (j in idx <==> nodes[j].kind != DG.ResponseNode && nodes[j].messageId !in excluded)
  }

  lemma WorkIdsMore(nodes: seq<DG.Node>, excluded: set<string>, idx: seq<nat>, last: DG.Node) returns (more: seq<nat>)
    requires ListsNodes(nodes, WorkIds(nodes, excluded), idx) && AreWork(nodes, excluded, idx)
    ensures ListsNodes(nodes + [last], WorkIds(nodes + [last], excluded), more)
    ensures AreWork(nodes + [last], excluded, more)
  {
    assert (nodes + [last])[..|nodes|] == nodes;
    assert forall j :: j in idx ==> j < |nodes|;
    if last.kind != DG.ResponseNode && last.messageId !in excluded {
      more := idx + [|nodes|];
    } else {
      more := idx;
    }
  }

  lemma {:induction false} WorkIdsListed(nodes: seq<DG.Node>, excluded: set<string>) returns (idx: seq<nat>)
    ensures ListsNodes(nodes, WorkIds(nodes, excluded), idx) && AreWork(nodes, excluded, idx)
  {
    if nodes == [] {
      idx := [];
    } else {
      var front, last := nodes[..|nodes| - 1], nodes[|nodes| - 1];
      assert nodes == front + [last];
      var before := WorkIdsListed(front, excluded);
      idx := WorkIdsMore(front, excluded, before, last);
    }
  }

  lemma {:induction false} ParentEntryEnds(edges: seq<DG.Edge>, x: string)
    ensures x in Children(ParentEdges(edges)) <==> HasParent(edges, x)
    ensures x in Parents(ParentEdges(edges)) <==> HasChild(edges, x)
  {
    if edges == [] {
    } else {
      var front, last := edges[..|edges| - 1], edges[|edges| - 1];
      ParentEntryEnds(front, x);
      assert forall e :: e in edges <==> e in front || e == last;
      var own: Entries := if last.kind.RespondsTo? then [] else [(last.source, last.target)];
      assert ParentEntries(edges) == ParentEntries(front) + own;
      assert forall e :: e in ParentEdges(edges) <==> e in ParentEdges(front) || e in own;
      assert own != [] ==> own[0] in own;
      assert x in Children(ParentEdges(edges)) <==> x in Children(ParentEdges(front)) || (own != [] && own[0].1 == x);
      assert x in Parents(ParentEdges(edges)) <==> x in Parents(ParentEdges(front)) || (own != [] && own[0].0 == x);
    }
  }

  /**
   What a finalized graph lists. Its nodes are those of the state in their order; its roots are, in node order,
   exactly the nodes that are no responses and into which no delegates or subtask edge leads, and its leaves
   exactly those from which none leads on.
   */
  lemma RootsAndLeaves(s: DG.State) returns (roots: seq<nat>, leaves: seq<nat>)
    requires Elements(s.keys) == s.nodes.Keys
    ensures var graph := Finalize(s);
            graph.edges == s.edges && |graph.nodes| == |s.keys| &&
            (forall i :: 0 <= i < |s.keys| ==> s.keys[i] in s.nodes && graph.nodes[i] == s.nodes[s.keys[i]]) &&
            ListsNodes(graph.nodes, graph.roots, roots) && ListsNodes(graph.nodes, graph.leaves, leaves)
    ensures var nodes := Finalize(s).nodes;
            forall j: nat :: j < |nodes| ==>
              (j in roots <==> nodes[j].kind != DG.ResponseNode && !HasParent(s.edges, nodes[j].messageId)) &&
              (j in leaves <==> nodes[j].kind != DG.ResponseNode && !HasChild(s.edges, nodes[j].messageId))
  {
    var nodes, g := NodeList(s), ParentEdges(s.edges);
    forall i | 0 <= i < |s.keys| ensures s.keys[i] in s.nodes {
      assert s.keys[i] in Elements(s.keys);
    }
    roots := WorkIdsListed(nodes, Children(g));
    leaves := WorkIdsListed(nodes, Parents(g));
    forall j: nat | j < |nodes|
      ensures nodes[j].messageId in Children(g) <==> HasParent(s.edges, nodes[j].messageId)
      ensures nodes[j].messageId in Parents(g) <==> HasChild(s.edges, nodes[j].messageId)
    {
      ParentEntryEnds(s.edges, nodes[j].messageId);
    }
  }

  // ----- What a finalized graph says -----

  lemma {:induction false} WorkIdsMembers(nodes: seq<DG.Node>, excluded: set<string>, x: string)
    ensures x in WorkIds(nodes, excluded) <==>
              x !in excluded && exists n :: n in nodes && n.messageId == x && !n.kind.ResponseNode?
  {
    if nodes == [] {
    } else {
      var front, last := nodes[..|nodes| - 1], nodes[|nodes| - 1];
      WorkIdsMembers(front, excluded, x);
      assert forall n :: n in nodes <==> n in front || n == last;
    }
  }

  /** A node without parent edges reaches no cycle when every node has at most one parent. */
  lemma RootReachesNoCycle(g: Edges, r: string)
    requires AtMostOneParent(g) && r !in Children(g)
    ensures AcyclicBelow(g, r)
  {
    forall c | IsCycle(g, c) ensures !Reaches(g, r, c[0]) {
      if Reaches(g, r, c[0]) {
        var p :| WalkFromTo(g, p, r, c[0]);
        BackOntoCycle(g, c, p);
        var y := CycleNodesHaveParents(g, c, r);
      }
    }
  }

  lemma CycleNodesHaveParents(g: Edges, c: seq<string>, x: string) returns (y: string)
    requires IsCycle(g, c) && x in c
    ensures (y, x) in g && y in c
  {
    var i :| 0 <= i < |c| && c[i] == x;
    var j := if i == 0 then |c| - 1 else i;
    assert (c[j - 1], c[j]) in g;
    y := c[j - 1];
  }

  lemma {:induction false} BackOntoCycle(g: Edges, c: seq<string>, p: seq<string>)
    requires AtMostOneParent(g) && IsCycle(g, c) && IsWalk(g, p) && p[|p| - 1] in c
    ensures p[0] in c
    decreases |p|
  {
    if |p| <= 1 {
    } else {
      var n := |p|;
      var y := CycleNodesHaveParents(g, c, p[n - 1]);
      assert (p[n - 2], p[n - 1]) in g;
      assert p[..n - 1][n - 2] == y;
      BackOntoCycle(g, c, p[..n - 1]);
    }
  }

  /** No chain from `node` has more than `d` nodes. */
  ghost predicate HeightAtMost(g: Edges, node: string, d: nat) {
    forall p :: IsChain(g, p) && p[0] == node ==> |p| <= d
  }

  /** `d` is the number of nodes of the longest chain of distinct nodes from a root. */
  ghost predicate IsHeight(g: Edges, roots: set<string>, d: nat) {
    (forall r :: r in roots ==> HeightAtMost(g, r, d)) &&
    (d > 0 ==> exists p :: IsChain(g, p) && p[0] in roots && |p| == d)
  }

  lemma HeightIsUnique(g: Edges, roots: set<string>, d: nat, e: nat)
    requires IsHeight(g, roots, d) && IsHeight(g, roots, e)
    ensures d == e
  {
  }

  /** `p` starts at a root, and no chain from a root is longer. */
  ghost predicate IsLongest(g: Edges, roots: set<string>, p: seq<string>) {
    IsChain(g, p) && p[0] in roots && forall r :: r in roots ==> HeightAtMost(g, r, |p|)
  }

  /** On any edges, cyclic or not, the depth is the length of the longest first chain from a root. */
  lemma {:induction false} DepthIsLongestFirstChain(entries: Entries, roots: seq<string>, n: nat)
    returns (p: seq<string>)
    requires n <= |roots|
    ensures n > 0 ==> IsFirstChain(entries, p) && p[0] in roots[..n] && |p| == DepthOfRoots(entries, roots, n)
    ensures forall q :: IsFirstChain(entries, q) && q[0] in roots[..n] ==> |q| <= DepthOfRoots(entries, roots, n)
  {
    if n == 0 {
      p := [];
    } else {
      var universe, r := Universe(entries, roots), roots[n - 1];
      UniverseHoldsTargets(entries, roots);
      assert roots[..n] == roots[..n - 1] + [r];
      var q := DepthIsLongestFirstChain(entries, roots, n - 1);
      p := DepthHasFirstChain(entries, universe, {}, r, {});
      var d := DepthFrom(entries, universe, r, {}).0;
      if d <= DepthOfRoots(entries, roots, n - 1) {
        p := q;
      }
      forall q | IsFirstChain(entries, q) && q[0] == r ensures |q| <= d {
        DepthBoundsFirstChains(entries, universe, {}, r, {}, q);
      }
    }
  }

  /** So the depth is the length in nodes of a chain of distinct messages from a root. */
  lemma DepthIsAChain(entries: Entries, roots: seq<string>, n: nat) returns (p: seq<string>)
    requires n <= |roots|
    ensures DepthOfRoots(entries, roots, n) > 0 ==>
              IsChain(EdgesOf(entries), p) && p[0] in roots && |p| == DepthOfRoots(entries, roots, n)
  {
    p := DepthIsLongestFirstChain(entries, roots, n);
    if n > 0 {
      FirstChainIsChain(entries, {}, p);
    }
  }

  /**
   When the depth is the height. On any entries, cyclic or not, the depth is the length of the longest chain of
   distinct messages from a root if and only if there are no roots or some longest such chain is a first chain.
   */
  lemma DepthIsHeightExactly(entries: Entries, roots: seq<string>)
    ensures IsHeight(EdgesOf(entries), Elements(roots), DepthOfRoots(entries, roots, |roots|)) <==>
              roots == [] || exists p :: IsLongest(EdgesOf(entries), Elements(roots), p) && IsFirstChain(entries, p)
  {
    var g, all, depth := EdgesOf(entries), Elements(roots), DepthOfRoots(entries, roots, |roots|);
    assert roots[..|roots|] == roots;
    if roots != [] {
      var q := DepthIsLongestFirstChain(entries, roots, |roots|);
      FirstChainIsChain(entries, {}, q);
      assert q[0] in all;
      if IsHeight(g, all, depth) {
        assert IsLongest(g, all, q);
      }
    }
  }

  /** The same for a finalized graph. */
  lemma FinalizedDepthExactly(s: DG.State)
    requires Elements(s.keys) == s.nodes.Keys
    ensures var graph, entries := Finalize(s), ParentEntries(s.edges);
            IsHeight(ParentEdges(s.edges), Elements(graph.roots), graph.depth) <==>
              graph.roots == [] ||
              exists p :: IsLongest(ParentEdges(s.edges), Elements(graph.roots), p) && IsFirstChain(entries, p)
  {
    DepthIsHeightExactly(ParentEntries(s.edges), Finalize(s).roots);
  }

  /**
   When every message has at most one parent, the depth is the height of the forest; no walk from a root repeats a
   message, so no walk is longer either.
   */
  lemma ForestDepthIsHeight(entries: Entries, roots: seq<string>)
    requires AtMostOneParent(EdgesOf(entries))
    requires forall r :: r in roots ==> r !in Children(EdgesOf(entries))
    ensures IsHeight(EdgesOf(entries), Elements(roots), DepthOfRoots(entries, roots, |roots|))
    ensures forall p :: IsWalk(EdgesOf(entries), p) && p[0] in roots ==> IsChain(EdgesOf(entries), p)
  {
    var g := EdgesOf(entries);
    forall r | r in roots ensures AcyclicBelow(g, r) {
      RootReachesNoCycle(g, r);
    }
    assert roots[..|roots|] == roots;
    forall p | IsWalk(g, p) && p[0] in roots ensures IsChain(g, p) {
      AcyclicWalkIsChain(g, p);
    }
    var p := DepthIsAChain(entries, roots, |roots|);
    var first := DepthIsLongestFirstChain(entries, roots, |roots|);
    forall r, q | r in Elements(roots) && IsChain(g, q) && q[0] == r
      ensures |q| <= DepthOfRoots(entries, roots, |roots|)
    {
      ForestWalkIsFirst(entries, {}, q);
    }
  }

  lemma FinalizedForest(s: DG.State)
    requires Elements(s.keys) == s.nodes.Keys && AtMostOneParent(ParentEdges(s.edges))
    ensures IsHeight(ParentEdges(s.edges), Elements(Finalize(s).roots), Finalize(s).depth)
    ensures forall p :: IsWalk(ParentEdges(s.edges), p) && p[0] in Finalize(s).roots ==>
              IsChain(ParentEdges(s.edges), p)
  {
    var entries, roots := ParentEntries(s.edges), Finalize(s).roots;
    forall r | r in roots ensures r !in Children(EdgesOf(entries)) {
      WorkIdsMembers(NodeList(s), Children(EdgesOf(entries)), r);
    }
    ForestDepthIsHeight(entries, roots);
  }

  lemma {:induction false} ParentEdgeKeys(edges: seq<DG.Edge>, a: string, b: string)
    ensures (a, b) in ParentEdges(edges) <==>
              (a, b, DG.Delegates) in DG.EdgeKeys(edges) || (a, b, DG.Subtask) in DG.EdgeKeys(edges)
  {
    if edges == [] {
    } else {
      var n := |edges| - 1;
      ParentEdgeKeys(edges[..n], a, b);
      DG.EdgeKeysGrow(edges, n);
      assert edges[..n + 1] == edges;
    }
  }

  /** A coherent log names at most one parent per message. */
  lemma CoherentLogIsForest(log: seq<DG.Recording>)
    requires DG.Coherent(log)
    ensures AtMostOneParent(ParentEdges(DG.ApplyAll(log).edges))
  {
    DG.LogDescribesState(log);
    var edges := DG.ApplyAll(log).edges;
    forall a, b, c | (a, c) in ParentEdges(edges) && (b, c) in ParentEdges(edges) ensures a == b {
      var r := NamedParent(log, edges, a, c);
      var q := NamedParent(log, edges, b, c);
    }
  }

  lemma NamedParent(log: seq<DG.Recording>, edges: seq<DG.Edge>, a: string, c: string) returns (r: DG.Recording)
    requires DG.EdgesDescribed(log, edges) && (a, c) in ParentEdges(edges)
    ensures r in log && r.message.id == c && DG.ParentOf(r) == Some(a)
  {
    ParentEdgeKeys(edges, a, c);
    var kind :| (a, c, kind) in DG.EdgeKeys(edges);
    assert DG.EdgeNamed(log, (a, c, kind));
    r :| r in log && DG.NamesEdge(r, (a, c, kind));
  }

  ghost predicate SameOutcome(a: DG.State, b: DG.State)
    requires Elements(a.keys) == a.nodes.Keys && Elements(b.keys) == b.nodes.Keys
  {
    var x, y := Finalize(a), Finalize(b);
    Elements(x.roots) == Elements(y.roots) && Elements(x.leaves) == Elements(y.leaves) && x.depth == y.depth
  }

  /** Coherent logs of the same content finalize to the same roots, leaves and depth. */
  lemma {:induction false} SameContentSameOutcome(a: seq<DG.Recording>, b: seq<DG.Recording>)
    requires DG.Coherent(a) && DG.Coherent(b) && DG.SameContent(a, b)
    ensures Elements(DG.ApplyAll(a).keys) == DG.ApplyAll(a).nodes.Keys
    ensures Elements(DG.ApplyAll(b).keys) == DG.ApplyAll(b).nodes.Keys
    ensures SameOutcome(DG.ApplyAll(a), DG.ApplyAll(b))
  {
    DG.SameContentSameGraph(a, b);
    LogKeys(a);
    LogKeys(b);
    var sa, sb := DG.ApplyAll(a), DG.ApplyAll(b);
    SameParentEdges(sa.edges, sb.edges);
    SameWorkIds(sa, sb, Children(ParentEdges(sa.edges)));
    SameWorkIds(sa, sb, Parents(ParentEdges(sa.edges)));
    CoherentLogIsForest(a);
    SameForestDepth(sa, sb);
  }

  /** Reordering or repeating a coherent log leaves roots, leaves and depth of the finalized graph as they were. */
  lemma {:induction false} FinalizedOrderIrrelevant(a: seq<DG.Recording>, b: seq<DG.Recording>)
    requires DG.Coherent(a) && Elements(a) == Elements(b)
    ensures Elements(DG.ApplyAll(a).keys) == DG.ApplyAll(a).nodes.Keys
    ensures Elements(DG.ApplyAll(b).keys) == DG.ApplyAll(b).nodes.Keys
    ensures SameOutcome(DG.ApplyAll(a), DG.ApplyAll(b))
  {
    DG.SameElementsSameContent(a, b);
    SameContentSameOutcome(a, b);
  }

  lemma SameParentEdges(a: seq<DG.Edge>, b: seq<DG.Edge>)
    requires DG.EdgeKeys(a) == DG.EdgeKeys(b)
    ensures ParentEdges(a) == ParentEdges(b)
  {
    forall e ensures e in ParentEdges(a) <==> e in ParentEdges(b) {
      ParentEdgeKeys(a, e.0, e.1);
      ParentEdgeKeys(b, e.0, e.1);
    }
  }

  lemma SameForestDepth(a: DG.State, b: DG.State)
    requires Elements(a.keys) == a.nodes.Keys && Elements(b.keys) == b.nodes.Keys
    requires ParentEdges(a.edges) == ParentEdges(b.edges) && AtMostOneParent(ParentEdges(a.edges))
    requires Elements(Finalize(a).roots) == Elements(Finalize(b).roots)
    ensures Finalize(a).depth == Finalize(b).depth
  {
    FinalizedForest(a);
    FinalizedForest(b);
    HeightIsUnique(ParentEdges(a.edges), Elements(Finalize(a).roots), Finalize(a).depth, Finalize(b).depth);
  }

  lemma SameWorkIds(a: DG.State, b: DG.State, excluded: set<string>)
    requires Elements(a.keys) == a.nodes.Keys && Elements(b.keys) == b.nodes.Keys && a.nodes == b.nodes
    ensures Elements(WorkIds(NodeList(a), excluded)) == Elements(WorkIds(NodeList(b), excluded))
  {
    SameNodes(a, b);
    SameNodes(b, a);
    forall x ensures x in WorkIds(NodeList(a), excluded) <==> x in WorkIds(NodeList(b), excluded) {
      WorkIdsMembers(NodeList(a), excluded, x);
      WorkIdsMembers(NodeList(b), excluded, x);
    }
  }

  lemma SameNodes(a: DG.State, b: DG.State)
    requires Elements(a.keys) == a.nodes.Keys && Elements(b.keys) == b.nodes.Keys && a.nodes == b.nodes
    ensures forall n :: n in NodeList(a) ==> n in NodeList(b)
  {
    forall n | n in NodeList(a) ensures n in NodeList(b) {
      var i :| 0 <= i < |a.keys| && NodeList(a)[i] == n;
      assert a.keys[i] in Elements(a.keys);
      assert a.keys[i] in Elements(b.keys);
      var j :| 0 <= j < |b.keys| && b.keys[j] == a.keys[i];
      assert NodeList(b)[j] == n;
    }
  }
}
