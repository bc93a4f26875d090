/** Recorded logs whose finalized graphs fall short of what is documented of depth and order. */
module DelegationExamples {
  import opened Graphs
  import opened DependencyCounts
  import opened DelegationDepth
  import opened DepthWalk
  import opened WalkOrders
  import opened DelegationOrder
  import opened Protocol
  import opened Wrappers
  import DG = DelegationGraph

  /** A request, recorded under a parent or without one. */
  function Request(id: string, parent: Option<string>): DG.Recording {
    DG.Recording(TaskRequest(id, "t", "agent", None, "work", "now"), parent)
  }

  function Delegated(id: string, parent: string): DG.Recording {
    DG.Recording(Delegation(id, "t", "agent", None, "work", "now", parent), None)
  }

  // ----- Small states, step by step -----

  /** The state holds just these work nodes and these parent entries, all of one kind. */
  ghost predicate Holds(s: DG.State, kind: DG.EdgeKind, keys: seq<string>, entries: Entries) {
    s.keys == keys && s.nodes.Keys == Elements(keys) && Distinct(keys) && ParentEntries(s.edges) == entries &&
    (forall id :: id in s.nodes ==> s.nodes[id].messageId == id && !s.nodes[id].kind.ResponseNode?) &&
    forall e :: e in s.edges ==> e.kind == kind && !e.kind.RespondsTo?
  }

  lemma {:induction false} EntryHasEdge(edges: seq<DG.Edge>, kind: DG.EdgeKind, a: string, b: string)
    requires forall e :: e in edges ==> e.kind == kind && !e.kind.RespondsTo?
    ensures (a, b) in ParentEntries(edges) <==> (a, b, kind) in DG.EdgeKeys(edges)
  {
    if edges == [] {
    } else {
      var n := |edges| - 1;
      EntryHasEdge(edges[..n], kind, a, b);
      DG.EdgeKeysGrow(edges, n);
      assert edges[..n + 1] == edges && edges[n] in edges;
      assert ParentEntries(edges) == ParentEntries(edges[..n]) + [(edges[n].source, edges[n].target)];
    }
  }

  function WithKey(keys: seq<string>, id: string): seq<string> {
    if id in keys then keys else keys + [id]
  }

  function WithEntry(entries: Entries, parent: Option<string>, id: string): Entries {
    if parent.None? || (parent.value, id) in entries then entries else entries + [(parent.value, id)]
  }

  lemma HoldsNode(s: DG.State, kind: DG.EdgeKind, keys: seq<string>, entries: Entries, node: DG.Node)
    requires Holds(s, kind, keys, entries) && !node.kind.ResponseNode?
    ensures Holds(DG.Upsert(s, node), kind, WithKey(keys, node.messageId), entries)
  {
    assert node.messageId in keys <==> node.messageId in Elements(keys);
  }

  lemma HoldsEdge(s: DG.State, kind: DG.EdgeKind, keys: seq<string>, entries: Entries, e: DG.Edge)
    requires Holds(s, kind, keys, entries) && e.kind == kind && !kind.RespondsTo?
    ensures Holds(DG.InsertEdge(s, e), kind, keys, WithEntry(entries, Some(e.source), e.target))
  {
    EntryHasEdge(s.edges, kind, e.source, e.target);
    var edges := s.edges + [e];
    assert edges[..|s.edges|] == s.edges && edges[|edges| - 1] == e;
    assert ParentEntries(edges) == entries + [(e.source, e.target)];
    assert forall x :: x in edges <==> x in s.edges || x == e;
  }

  predicate IsWork(r: DG.Recording, kind: DG.EdgeKind) {
    (r.message.TaskRequest? || r.message.Delegation?) && DG.KindOfEdge(r.message) == kind
  }

  function KeysOf(log: seq<DG.Recording>): seq<string> {
    if log == [] then [] else WithKey(KeysOf(log[..|log| - 1]), log[|log| - 1].message.id)
  }

  function EntriesOf(log: seq<DG.Recording>): Entries {
    if log == [] then [] else
      var last := log[|log| - 1];
      WithEntry(EntriesOf(log[..|log| - 1]), DG.ParentOf(last), last.message.id)
  }

  /** The state of a log of work messages of one kind. */
  lemma {:induction false} LogHolds(log: seq<DG.Recording>, kind: DG.EdgeKind)
    requires !kind.RespondsTo? && forall r :: r in log ==> IsWork(r, kind)
    ensures Holds(DG.ApplyAll(log), kind, KeysOf(log), EntriesOf(log))
  {
    if log == [] {
    } else {
      var front, r := log[..|log| - 1], log[|log| - 1];
      assert r in log && forall q :: q in front ==> q in log;
      LogHolds(front, kind);
      var parent := DG.ParentOf(r);
      HoldsNode(DG.ApplyAll(front), kind, KeysOf(front), EntriesOf(front), DG.NodeOf(r.message, parent));
      if parent.Some? {
        var noded := DG.Upsert(DG.ApplyAll(front), DG.NodeOf(r.message, parent));
        HoldsEdge(noded, kind, KeysOf(log), EntriesOf(front), DG.EdgeOf(noded, r.message, parent.value));
      }
    }
  }

  lemma KeysOfFour(a: DG.Recording, b: DG.Recording, c: DG.Recording, d: DG.Recording)
    ensures KeysOf([a, b]) == WithKey([a.message.id], b.message.id)
    ensures KeysOf([a, b, c, d]) == WithKey(WithKey(KeysOf([a, b]), c.message.id), d.message.id)
  {
    assert [a, b, c, d][..3] == [a, b, c] && [a, b, c][..2] == [a, b] && [a, b][..1] == [a] && [a][..0] == [];
    assert KeysOf([a]) == [a.message.id];
    assert KeysOf([a, b, c]) == WithKey(KeysOf([a, b]), c.message.id);
  }

  lemma EntriesOfFour(a: DG.Recording, b: DG.Recording, c: DG.Recording, d: DG.Recording)
    ensures EntriesOf([a, b]) == WithEntry(WithEntry([], DG.ParentOf(a), a.message.id), DG.ParentOf(b), b.message.id)
    ensures EntriesOf([a, b, c, d]) ==
              WithEntry(WithEntry(EntriesOf([a, b]), DG.ParentOf(c), c.message.id), DG.ParentOf(d), d.message.id)
  {
    assert [a, b, c, d][..3] == [a, b, c] && [a, b, c][..2] == [a, b] && [a, b][..1] == [a] && [a][..0] == [];
    assert EntriesOf([a]) == WithEntry([], DG.ParentOf(a), a.message.id);
    assert EntriesOf([a, b, c]) == WithEntry(EntriesOf([a, b]), DG.ParentOf(c), c.message.id);
  }

  lemma {:induction false} AllAreWork(nodes: seq<DG.Node>, keys: seq<string>, excluded: set<string>)
    requires |nodes| == |keys|
    requires forall i :: 0 <= i < |keys| ==> nodes[i].messageId == keys[i] && !nodes[i].kind.ResponseNode?
    ensures WorkIds(nodes, excluded) == Others(keys, excluded)
  {
    if nodes == [] {
    } else {
      var n := |nodes| - 1;
      AllAreWork(nodes[..n], keys[..n], excluded);
    }
  }

  lemma FinalizedHolds(s: DG.State, kind: DG.EdgeKind, keys: seq<string>, entries: Entries)
    requires Holds(s, kind, keys, entries)
    ensures var graph := Finalize(s);
            graph.roots == Others(keys, Children(EdgesOf(entries))) && WorkNodes(graph) == keys &&
            graph.depth == DepthOfRoots(entries, graph.roots, |graph.roots|)
  {
    forall i | 0 <= i < |keys| ensures NodeList(s)[i].messageId == keys[i] && !NodeList(s)[i].kind.ResponseNode? {
      assert keys[i] in Elements(keys);
    }
    AllAreWork(NodeList(s), keys, Children(EdgesOf(entries)));
    AllAreWork(NodeList(s), keys, {});
    OthersOfNone(keys);
  }

  lemma {:induction false} OthersOfNone(keys: seq<string>)
    ensures Others(keys, {}) == keys
  {
    if keys == [] {
    } else {
      OthersOfNone(keys[..|keys| - 1]);
      assert keys == keys[..|keys| - 1] + [keys[|keys| - 1]];
    }
  }

  lemma OthersOfThree(x: string, y: string, z: string, taken: set<string>)
    ensures Others([x, y, z], taken) ==
              (if x in taken then [] else [x]) + (if y in taken then [] else [y]) + if z in taken then [] else [z]
  {
    assert [x, y, z][..2] == [x, y] && [x, y][..1] == [x] && [x][..0] == [];
    assert Others([x], taken) == if x in taken then [] else [x];
  }

  // ----- A request recorded under two parents -----

  lemma TargetsOfThree(x: (string, string), y: (string, string), z: (string, string), a: string)
    ensures Targets([x, y, z], a) ==
              (if x.0 == a then [x.1] else []) + (if y.0 == a then [y.1] else []) + (if z.0 == a then [z.1] else [])
  {
    AppendEntry([], x);
    AppendEntry([x], y);
    AppendEntry([x, y], z);
    assert [x] == [] + [x] && [x, y] == [x] + [y] && [x, y, z] == [x, y] + [z];
  }

  lemma LeafDepth(entries: Entries, universe: set<string>, node: string, visited: set<string>)
    requires node in universe && node !in visited && (forall e :: e in entries ==> e.1 in universe)
    requires Targets(entries, node) == []
    ensures DepthFrom(entries, universe, node, visited) == (1, visited + {node})
  {
  }

  /** One child after the other, over child lists of at most two nodes. */
  lemma DepthOfTwo(entries: Entries, universe: set<string>, a: string, b: string, visited: set<string>)
    requires {a, b} <= universe && forall e :: e in entries ==> e.1 in universe
    ensures DepthOfAll(entries, universe, [a], visited) == DepthFrom(entries, universe, a, visited)
    ensures var (first, after) := DepthFrom(entries, universe, a, visited);
            var (second, last) := DepthFrom(entries, universe, b, after);
            DepthOfAll(entries, universe, [a, b], visited) == (if first > second then first else second, last)
  {
    assert [a][1..] == [] && [a, b][1..] == [b] && [b][1..] == [];
    assert forall after :: DepthOfAll(entries, universe, [b], after) == DepthFrom(entries, universe, b, after);
  }

  lemma LateDepth()
    ensures DepthOfRoots([("r", "a"), ("a", "c"), ("r", "c")], ["r"], 1) == 3
  {
    var es := [("r", "a"), ("a", "c"), ("r", "c")];
    var u := Universe(es, ["r"]);
    UniverseHoldsTargets(es, ["r"]);
    TargetsOfThree(es[0], es[1], es[2], "r");
    TargetsOfThree(es[0], es[1], es[2], "a");
    TargetsOfThree(es[0], es[1], es[2], "c");
    assert "r" in Elements(["r"]) && es[0] in EdgesOf(es) && es[1] in EdgesOf(es);
    assert {"a", "c"} <= u;
    assert Targets(es, "r") == ["a", "c"] && Targets(es, "a") == ["c"] && Targets(es, "c") == [];
    var r, ra: set<string> := {} + {"r"}, {} + {"r"} + {"a"};
    LeafDepth(es, u, "c", ra);
    DepthOfTwo(es, u, "c", "c", ra);
    assert DepthFrom(es, u, "a", r) == (2, ra + {"c"});
    DepthOfTwo(es, u, "a", "c", r);
    assert DepthFrom(es, u, "r", {}).0 == 3;
    assert DepthOfRoots(es, ["r"], 0) == 0;
  }

  lemma EarlyDepth()
    ensures DepthOfRoots([("r", "c"), ("r", "a"), ("a", "c")], ["r"], 1) == 2
  {
    var es := [("r", "c"), ("r", "a"), ("a", "c")];
    var u := Universe(es, ["r"]);
    UniverseHoldsTargets(es, ["r"]);
    TargetsOfThree(es[0], es[1], es[2], "r");
    TargetsOfThree(es[0], es[1], es[2], "a");
    TargetsOfThree(es[0], es[1], es[2], "c");
    assert "r" in Elements(["r"]) && es[0] in EdgesOf(es) && es[1] in EdgesOf(es);
    assert {"a", "c"} <= u;
    var r, rc: set<string> := {} + {"r"}, {} + {"r"} + {"c"};
    LeafDepth(es, u, "c", r);
    assert Targets(es, "r") == ["c", "a"] && Targets(es, "a") == ["c"] && Targets(es, "c") == [];
    DepthOfTwo(es, u, "c", "c", rc + {"a"});
    assert DepthFrom(es, u, "c", rc + {"a"}) == (0, rc + {"a"});
    assert DepthFrom(es, u, "a", rc) == (1, rc + {"a"});
    DepthOfTwo(es, u, "c", "a", r);
    assert DepthFrom(es, u, "r", {}).0 == 2;
    assert DepthOfRoots(es, ["r"], 0) == 0;
  }

  /** The recorded log finalizes to this depth, where the hierarchy has this height. */
  ghost predicate DepthAndHeight(log: seq<DG.Recording>, depth: nat, height: nat) {
    var s := DG.ApplyAll(log);
    Elements(s.keys) == s.nodes.Keys && Finalize(s).depth == depth &&
    IsHeight(ParentEdges(s.edges), Elements(Finalize(s).roots), height)
  }

  lemma TriangleHeight(g: Edges)
    requires g == {("r", "a"), ("a", "c"), ("r", "c")}
    ensures IsHeight(g, {"r"}, 3)
  {
    var level: map<string, nat> := map["r" := 0, "a" := 1, "c" := 2];
    assert IsWalk(g, ["r", "a", "c"]);
    forall p | IsWalk(g, p) && p[0] == "r" ensures |p| <= 3 {
      if |p| > 1 {
        assert (p[|p| - 2], p[|p| - 1]) in g;
      }
      LevelBoundsWalk(g, level, p);
    }
  }

  /** A log of requests with the edges of the triangle, in some order. */
  lemma TriangleDepth(log: seq<DG.Recording>, keys: seq<string>, entries: Entries, depth: nat)
    requires forall r :: r in log ==> IsWork(r, DG.Subtask)
    requires keys == ["r", "a", "c"] || keys == ["r", "c", "a"]
    requires keys == KeysOf(log) && entries == EntriesOf(log)
    requires EdgesOf(entries) == {("r", "a"), ("a", "c"), ("r", "c")} && DepthOfRoots(entries, ["r"], 1) == depth
    ensures DepthAndHeight(log, depth, 3)
  {
    LogHolds(log, DG.Subtask);
    TriangleRoots(keys, EdgesOf(entries));
    TriangleHeight(EdgesOf(entries));
    TriangleDepthOf(DG.ApplyAll(log), keys, entries, depth);
  }

  lemma TriangleDepthOf(s: DG.State, keys: seq<string>, entries: Entries, depth: nat)
    requires Holds(s, DG.Subtask, keys, entries) && Others(keys, Children(EdgesOf(entries))) == ["r"]
    requires DepthOfRoots(entries, ["r"], 1) == depth
    ensures Finalize(s).depth == depth && Finalize(s).roots == ["r"] && Elements(["r"]) == {"r"}
  {
    FinalizedHolds(s, DG.Subtask, keys, entries);
  }

  lemma TriangleEdges()
    ensures EdgesOf([("r", "a"), ("a", "c"), ("r", "c")]) == {("r", "a"), ("a", "c"), ("r", "c")}
    ensures EdgesOf([("r", "c"), ("r", "a"), ("a", "c")]) == {("r", "a"), ("a", "c"), ("r", "c")}
  {
    var late: Entries, early: Entries := [("r", "a"), ("a", "c"), ("r", "c")], [("r", "c"), ("r", "a"), ("a", "c")];
    assert late[0] in late && late[1] in late && late[2] in late;
    assert early[0] in early && early[1] in early && early[2] in early;
  }

  lemma TriangleRoots(keys: seq<string>, g: Edges)
    requires keys == ["r", "a", "c"] || keys == ["r", "c", "a"]
    requires g == {("r", "a"), ("a", "c"), ("r", "c")}
    ensures Others(keys, Children(g)) == ["r"]
  {
    assert ("r", "a") in g && ("a", "c") in g;
    assert "a" in Children(g) && "c" in Children(g) && "r" !in Children(g);
    OthersOfThree(keys[0], keys[1], keys[2], Children(g));
  }

  /** The states of the two logs, for any three ids. */
  lemma LateState(r: string, a: string, c: string)
    requires r != a && r != c && a != c
    ensures var log := [Request(r, None), Request(a, Some(r)), Request(c, Some(a)), Request(c, Some(r))];
            KeysOf(log) == [r, a, c] && EntriesOf(log) == [(r, a), (a, c), (r, c)]
  {
    KeysOfFour(Request(r, None), Request(a, Some(r)), Request(c, Some(a)), Request(c, Some(r)));
    EntriesOfFour(Request(r, None), Request(a, Some(r)), Request(c, Some(a)), Request(c, Some(r)));
  }

  lemma EarlyState(r: string, a: string, c: string)
    requires r != a && r != c && a != c
    ensures var log := [Request(r, None), Request(c, Some(r)), Request(a, Some(r)), Request(c, Some(a))];
            KeysOf(log) == [r, c, a] && EntriesOf(log) == [(r, c), (r, a), (a, c)]
  {
    KeysOfFour(Request(r, None), Request(c, Some(r)), Request(a, Some(r)), Request(c, Some(a)));
    EntriesOfFour(Request(r, None), Request(c, Some(r)), Request(a, Some(r)), Request(c, Some(a)));
  }

  lemma LateLog() returns (late: seq<DG.Recording>)
    ensures late == [Request("r", None), Request("a", Some("r")), Request("c", Some("a")), Request("c", Some("r"))]
    ensures DepthAndHeight(late, 3, 3)
  {
    late := [Request("r", None), Request("a", Some("r")), Request("c", Some("a")), Request("c", Some("r"))];
    LateState("r", "a", "c");
    LateDepth();
    TriangleEdges();
    TriangleDepth(late, ["r", "a", "c"], [("r", "a"), ("a", "c"), ("r", "c")], 3);
  }

  lemma EarlyLog() returns (early: seq<DG.Recording>)
    ensures early == [Request("r", None), Request("c", Some("r")), Request("a", Some("r")), Request("c", Some("a"))]
    ensures DepthAndHeight(early, 2, 3)
  {
    early := [Request("r", None), Request("c", Some("r")), Request("a", Some("r")), Request("c", Some("a"))];
    EarlyState("r", "a", "c");
    EarlyDepth();
    TriangleEdges();
    TriangleDepth(early, ["r", "c", "a"], [("r", "c"), ("r", "a"), ("a", "c")], 2);
  }

  lemma SameFour<T>(a: T, b: T, c: T, d: T)
    ensures Elements([a, b, c, d]) == Elements([a, d, b, c])
  {
    var x, y := [a, b, c, d], [a, d, b, c];
    assert x[0] in x && x[1] in x && x[2] in x && x[3] in x && y[0] in y && y[1] in y && y[2] in y && y[3] in y;
  }

  /**
   With one request recorded under two parents the depth depends on the order of the recordings: of two logs of
   the same four recordings one gives the height of the hierarchy, which is three, and the other two.
   */
  lemma DepthDependsOnRecordingOrder() returns (late: seq<DG.Recording>, early: seq<DG.Recording>)
    ensures Elements(late) == Elements(early) && DepthAndHeight(late, 3, 3) && DepthAndHeight(early, 2, 3)
  {
    late := LateLog();
    early := EarlyLog();
    SameFour(late[0], late[1], late[2], late[3]);
  }

  // ----- A request recorded below its own child -----

  lemma LoopState(r: string, a: string, b: string)
    requires r != a && r != b && a != b
    ensures var log := [Request(r, None), Request(a, Some(r)), Request(b, Some(a)), Request(a, Some(b))];
            KeysOf(log) == [r, a, b] && EntriesOf(log) == [(r, a), (a, b), (b, a)]
  {
    KeysOfFour(Request(r, None), Request(a, Some(r)), Request(b, Some(a)), Request(a, Some(b)));
    EntriesOfFour(Request(r, None), Request(a, Some(r)), Request(b, Some(a)), Request(a, Some(b)));
  }

  /** On the loop a, b below r the longest chain has three nodes and is a first chain. */
  lemma LoopHeight(entries: Entries, r: string, a: string, b: string)
    requires r != a && r != b && a != b && entries == [(r, a), (a, b), (b, a)]
    ensures HasCycle(EdgesOf(entries)) && Children(EdgesOf(entries)) == {a, b}
    ensures IsHeight(EdgesOf(entries), {r}, 3) && DepthOfRoots(entries, [r], 1) == 3
  {
    var g, p := EdgesOf(entries), [r, a, b];
    assert entries[0] in entries && entries[1] in entries && entries[2] in entries;
    assert g == {(r, a), (a, b), (b, a)};
    assert (r, a) in g && (a, b) in g;
    assert IsCycle(g, [a, b, a]);
    assert IsChain(g, p);
    forall q | IsChain(g, q) && q[0] == r ensures |q| <= 3 {
      LoopChain(g, r, a, b, q);
    }
    LoopIsFirst(entries, r, a, b);
    assert IsLongest(g, {r}, p);
    assert Elements([r]) == {r};
    DepthIsHeightExactly(entries, [r]);
    HeightIsUnique(g, {r}, 3, DepthOfRoots(entries, [r], 1));
  }

  lemma LoopChain(g: Edges, r: string, a: string, b: string, q: seq<string>)
    requires g == {(r, a), (a, b), (b, a)} && IsChain(g, q) && q[0] == r
    ensures |q| <= 3
  {
    forall i | 0 <= i < |q| ensures q[i] in {r, a, b} {
      if i > 0 {
        assert (q[i - 1], q[i]) in g;
      }
    }
    if |q| > 3 {
      Pigeonhole(q, {r, a, b});
    }
  }

  lemma LoopIsFirst(entries: Entries, r: string, a: string, b: string)
    requires r != a && r != b && a != b && entries == [(r, a), (a, b), (b, a)]
    ensures IsFirstChain(entries, [r, a, b])
  {
    TargetsOfThree(entries[0], entries[1], entries[2], r);
    TargetsOfThree(entries[0], entries[1], entries[2], a);
    assert Targets(entries, r)[0] == a && Targets(entries, a)[0] == b;
    assert [r, a, b][1..] == [a, b] && [a, b][1..] == [b];
    assert FirstChainPast(entries, {r, a}, [b]);
    assert {} + {r} + {a} == {r, a};
    assert FirstChainPast(entries, {} + {r}, [a, b]);
  }

  /** A log of requests with these keys and entries. */
  lemma LoopDepth(log: seq<DG.Recording>, entries: Entries, r: string, a: string, b: string)
    requires forall x :: x in log ==> IsWork(x, DG.Subtask)
    requires r != a && r != b && a != b && entries == [(r, a), (a, b), (b, a)]
    requires KeysOf(log) == [r, a, b] && EntriesOf(log) == entries
    ensures HasCycle(ParentEdges(DG.ApplyAll(log).edges)) && DepthAndHeight(log, 3, 3)
  {
    LoopHeight(entries, r, a, b);
    LogHolds(log, DG.Subtask);
    FinalizedHolds(DG.ApplyAll(log), DG.Subtask, [r, a, b], entries);
    LoopRoots(r, a, b, Children(EdgesOf(entries)));
    assert Finalize(DG.ApplyAll(log)).roots == [r];
    assert Elements([r]) == {r};
  }

  lemma LoopRoots(r: string, a: string, b: string, taken: set<string>)
    requires r != a && r != b && taken == {a, b}
    ensures Others([r, a, b], taken) == [r]
  {
    OthersOfThree(r, a, b, taken);
  }

  /** A request recorded below its own child: the parent edges have a cycle, and the depth is still the height. */
  lemma DepthOnCycle() returns (log: seq<DG.Recording>)
    ensures HasCycle(ParentEdges(DG.ApplyAll(log).edges)) && DepthAndHeight(log, 3, 3)
  {
    log := [Request("r", None), Request("a", Some("r")), Request("b", Some("a")), Request("a", Some("b"))];
    LoopState("r", "a", "b");
    LoopDepth(log, [("r", "a"), ("a", "b"), ("b", "a")], "r", "a", "b");
  }

  // ----- A delegation below a parent that was never recorded -----

  lemma BetweenTwo(x: (string, string), y: (string, string), work: set<string>)
    ensures Between([x, y], work) ==
              (if x.0 in work && x.1 in work then [x] else []) + if y.0 in work && y.1 in work then [y] else []
  {
    assert [x, y][..1] == [x] && [x][..0] == [];
    assert Between([x], work) == if x.0 in work && x.1 in work then [x] else [];
  }

  lemma BelowUnrecorded(graph: Graph)
    requires ParentEntries(graph.edges) == [("b", "c"), ("u", "b")] && WorkNodes(graph) == ["c", "b"]
    ensures ("b", "c") in WorkEntries(graph) && !HasCycle(ParentEdges(graph.edges)) && Blocked(graph, "b")
  {
    var g, work := ParentEdges(graph.edges), Elements(WorkNodes(graph));
    var entries: Entries := [("b", "c"), ("u", "b")];
    assert WorkNodes(graph)[0] in work && WorkNodes(graph)[1] in work;
    assert entries[0] in entries && entries[1] in entries;
    BetweenTwo(entries[0], entries[1], work);
    assert WorkEntries(graph) == [("b", "c")];
    assert [("b", "c")][0] in WorkEntries(graph);
    LevelForbidsCycle(g, map["u" := 0, "b" := 1, "c" := 2]);
    assert ("u", "b") in g && "b" in Children(g);
    assert Stuck(graph, "b");
    ReachesSelf(EdgesOf(WorkEntries(graph)), "b");
  }

  lemma UnrecordedState(u: string, b: string, c: string)
    requires b != c
    ensures var log := [Delegated(c, b), Delegated(b, u)];
            DG.Coherent(log) && KeysOf(log) == [c, b] && EntriesOf(log) == [(b, c), (u, b)]
  {
    KeysOfFour(Delegated(c, b), Delegated(b, u), Delegated(c, b), Delegated(c, b));
    EntriesOfFour(Delegated(c, b), Delegated(b, u), Delegated(c, b), Delegated(c, b));
  }

  /**
   A delegation recorded before its parent, below a parent that was never recorded: a coherent log with acyclic
   parent edges, and yet an edge of its finalized graph goes backward in the order.
   */
  lemma UnrecordedParentBreaksOrder() returns (log: seq<DG.Recording>, graph: Graph, a: string, b: string)
    ensures DG.Coherent(log) && Elements(DG.ApplyAll(log).keys) == DG.ApplyAll(log).nodes.Keys
    ensures graph == Finalize(DG.ApplyAll(log))
    ensures (a, b) in WorkEntries(graph) && !HasCycle(ParentEdges(graph.edges))
    ensures forall kahn :: Emitted(graph, kahn) ==> !Before(kahn + Others(WorkNodes(graph), Elements(kahn)), a, b)
  {
    log, a, b := [Delegated("c", "b"), Delegated("b", "u")], "b", "c";
    UnrecordedState("u", "b", "c");
    LogHolds(log, DG.Delegates);
    LogGraphIsFinalized(log);
    graph := Finalize(DG.ApplyAll(log));
    FinalizedHolds(DG.ApplyAll(log), DG.Delegates, ["c", "b"], [("b", "c"), ("u", "b")]);
    BelowUnrecorded(graph);
    forall kahn | Emitted(graph, kahn) ensures !Before(kahn + Others(WorkNodes(graph), Elements(kahn)), a, b) {
      EdgeGoesForward(graph, kahn, a, b);
    }
  }
}
