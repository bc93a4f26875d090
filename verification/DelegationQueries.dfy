/** Queries over a finalized delegation graph: descendants and ancestors along parent edges. */
module DelegationQueries {
  import opened Graphs
  import opened DependencyCounts
  import opened DelegationDepth
  import opened Selections
  import opened WalkOrders
  import opened Wrappers
  import DG = DelegationGraph

  /** The node map by id; a later node with the same id wins. */
  function ById(nodes: seq<DG.Node>): map<string, DG.Node> {
    if nodes == [] then map[] else
      var last := nodes[|nodes| - 1];
      ById(nodes[..|nodes| - 1])[last.messageId := last]
  }

  lemma {:induction false} ByIdNodes(nodes: seq<DG.Node>, id: string)
    ensures id in ById(nodes) ==> ById(nodes)[id] in nodes && ById(nodes)[id].messageId == id
    ensures id in ById(nodes) <==> exists n :: n in nodes && n.messageId == id
  {
    if nodes == [] {
    } else {
      var front, last := nodes[..|nodes| - 1], nodes[|nodes| - 1];
      ByIdNodes(front, id);
      assert forall n :: n in nodes <==> n in front || n == last;
    }
  }

  /** The node found under an id is the last one listed with it. */
  lemma {:induction false} ByIdIsLast(nodes: seq<DG.Node>, id: string) returns (j: nat)
    requires id in ById(nodes)
    ensures j < |nodes| && nodes[j].messageId == id && ById(nodes)[id] == nodes[j]
    ensures forall k :: j < k < |nodes| ==> nodes[k].messageId != id
  {
    var n := |nodes| - 1;
    if nodes[n].messageId == id {
      j := n;
    } else {
      j := ByIdIsLast(nodes[..n], id);
      assert forall k :: 0 <= k < n ==> nodes[..n][k] == nodes[k];
    }
  }

  function IdsOf(nodes: seq<DG.Node>): seq<string> {
    seq(|nodes|, i requires 0 <= i < |nodes| => nodes[i].messageId)
  }

  /** Parent edges that the walk to the leaves follows: it never leaves a node with an empty id. */
  ghost function WalkedEdges(g: Edges): Edges {
    set e | e in g && e.0 != ""
  }

  // ----- getDelegationDescendants -----

  /** The state of the breadth-first walk: all visited nodes are reached, and the ones not queued are closed. */
  ghost predicate Walking(g: Edges, start: string, visited: set<string>, queue: seq<string>) {
    start in visited &&
    (forall x :: x in visited ==> Reaches(g, start, x)) &&
    (forall x :: x in queue ==> x in visited) &&
    forall e :: e in g && e.0 in visited && e.0 !in queue ==> e.1 in visited
  }

  lemma WalkingCovers(g: Edges, start: string, visited: set<string>)
    requires Walking(g, start, visited, [])
    ensures forall x :: x in visited <==> Reaches(g, start, x)
  {
    forall x | Reaches(g, start, x) ensures x in visited {
      var p :| WalkFromTo(g, p, start, x);
      ClosedUnderEdges(g, visited, p);
    }
  }

  /** The recorded ones among the ids, in their order. */
  function RecordedNodes(byId: map<string, DG.Node>, ids: seq<string>): seq<DG.Node> {
    if ids == [] then [] else
      var last := ids[|ids| - 1];
      RecordedNodes(byId, ids[..|ids| - 1]) + if last in byId then [byId[last]] else []
  }

  lemma RecordedMore(byId: map<string, DG.Node>, ids: seq<string>, id: string)
    ensures RecordedNodes(byId, ids + [id]) == RecordedNodes(byId, ids) + if id in byId then [byId[id]] else []
  {
    assert (ids + [id])[..|ids|] == ids;
  }

  lemma {:induction false} RecordedConcat(byId: map<string, DG.Node>, a: seq<string>, b: seq<string>)
    ensures RecordedNodes(byId, a + b) == RecordedNodes(byId, a) + RecordedNodes(byId, b)
  {
    if b == [] {
      assert a + b == a;
    } else {
      var front, last := b[..|b| - 1], b[|b| - 1];
      assert a + b == a + front + [last];
      RecordedConcat(byId, a, front);
      RecordedMore(byId, a + front, last);
    }
  }

  /** What visiting adds: the unvisited targets, queued in order, and the recorded ones among them. */
  ghost predicate VisitsNews(byId: map<string, DG.Node>, visited0: set<string>, queue0: seq<string>,
                             found0: seq<DG.Node>, visited: set<string>, queue: seq<string>, found: seq<DG.Node>,
                             news: seq<string>) {
    visited == visited0 + Elements(news) && queue == queue0 + news && found == found0 + RecordedNodes(byId, news)
  }

  lemma VisitOneMore(byId: map<string, DG.Node>, visited0: set<string>, queue0: seq<string>, found0: seq<DG.Node>,
                     visited: set<string>, queue: seq<string>, found: seq<DG.Node>, news: seq<string>, id: string)
    requires VisitsNews(byId, visited0, queue0, found0, visited, queue, found, news)
    ensures VisitsNews(byId, visited0, queue0, found0, visited + {id}, queue + [id],
                       if id in byId then found + [byId[id]] else found, news + [id])
  {
    RecordedMore(byId, news, id);
    assert Elements(news + [id]) == Elements(news) + {id};
    assert queue0 + news + [id] == queue0 + (news + [id]);
  }

  /** Visit the unvisited targets of `current`, in edge order. */
  method VisitChildren(entries: Entries, byId: map<string, DG.Node>, current: string,
                       visited0: set<string>, queue0: seq<string>, found0: seq<DG.Node>)
    returns (visited: set<string>, queue: seq<string>, found: seq<DG.Node>, ghost news: seq<string>,
             ghost first: seq<nat>)
    ensures VisitsNews(byId, visited0, queue0, found0, visited, queue, found, news)
    ensures NewsOf(entries, current, visited0, news, first)
  {
    visited, queue, found, news, first := visited0, queue0, found0, [], [];
    ghost var seen: Entries := [];
    for i := 0 to |entries|
      invariant seen == entries[..i] && NewsOf(seen, current, visited0, news, first)
      invariant VisitsNews(byId, visited0, queue0, found0, visited, queue, found, news)
    {
      EntriesGrow(entries, i);
      visited, queue, found, news, first :=
        VisitEntry(entries[i], byId, current, visited, queue, found, visited0, queue0, found0, seen, news, first);
      seen := seen + [entries[i]];
    }
    assert entries[..|entries|] == entries;
  }

  /** Look at one edge: an unvisited target of `current` is visited. */
  method VisitEntry(edge: (string, string), byId: map<string, DG.Node>, current: string, visited1: set<string>,
                    queue1: seq<string>, found1: seq<DG.Node>, ghost visited0: set<string>,
                    ghost queue0: seq<string>, ghost found0: seq<DG.Node>, ghost seen: Entries,
                    ghost news1: seq<string>, ghost first1: seq<nat>)
    returns (visited: set<string>, queue: seq<string>, found: seq<DG.Node>, ghost news: seq<string>,
             ghost first: seq<nat>)
    requires NewsOf(seen, current, visited0, news1, first1)
    requires VisitsNews(byId, visited0, queue0, found0, visited1, queue1, found1, news1)
    ensures NewsOf(seen + [edge], current, visited0, news, first)
    ensures VisitsNews(byId, visited0, queue0, found0, visited, queue, found, news)
  {
    visited, queue, found, news, first := visited1, queue1, found1, news1, first1;
    assert edge.1 in visited <==> edge.1 in visited0 || edge.1 in news;
    if edge.0 == current && edge.1 !in visited {
      FirstNew(seen, current, visited0, news, first, edge);
      VisitOneMore(byId, visited0, queue0, found0, visited, queue, found, news, edge.1);
      visited := visited + {edge.1};
      if edge.1 in byId {
        found := found + [byId[edge.1]];
      }
      queue, news, first := queue + [edge.1], news + [edge.1], first + [|seen|];
    } else {
      FirstOld(seen, current, visited0, news, first, edge);
    }
  }

  lemma EntriesGrow(entries: Entries, i: nat)
    requires i < |entries|
    ensures entries[..i + 1] == entries[..i] + [entries[i]]
  {
  }

  /** The walk so far: what was visited, in its order, and what of it is recorded, without the start. */
  ghost predicate Descending(entries: Entries, byId: map<string, DG.Node>, start: string, done: seq<string>,
                             queue: seq<string>, visited: set<string>, found: seq<DG.Node>) {
    Discovering(entries, start, done, queue) && visited == Elements(done + queue) &&
    found == RecordedNodes(byId, (done + queue)[1..])
  }

  lemma DescendNews(entries: Entries, byId: map<string, DG.Node>, start: string, done: seq<string>, current: string,
                    rest: seq<string>, visited: set<string>, found: seq<DG.Node>, news: seq<string>, first: seq<nat>)
    requires Descending(entries, byId, start, done, [current] + rest, visited, found)
    requires NewsOf(entries, current, visited, news, first)
    ensures Descending(entries, byId, start, done + [current], rest + news, visited + Elements(news),
                       found + RecordedNodes(byId, news))
  {
    var order := done + ([current] + rest);
    assert forall x :: x in order <==> x in visited;
    DiscoverStep(entries, start, done, current, rest, news, first);
    MoveOver(done, current, rest, news);
    TailGrows(byId, order, news);
  }

  lemma TailGrows(byId: map<string, DG.Node>, order: seq<string>, news: seq<string>)
    requires order != []
    ensures RecordedNodes(byId, (order + news)[1..]) == RecordedNodes(byId, order[1..]) + RecordedNodes(byId, news)
    ensures Elements(order + news) == Elements(order) + Elements(news)
  {
    assert (order + news)[1..] == order[1..] + news;
    RecordedConcat(byId, order[1..], news);
  }

  lemma DescendPast(entries: Entries, byId: map<string, DG.Node>, start: string, done: seq<string>,
                    rest: seq<string>, visited: set<string>, found: seq<DG.Node>)
    requires Descending(entries, byId, start, done, [""] + rest, visited, found)
    ensures Descending(entries, byId, start, done + [""], rest, visited, found)
  {
    DiscoverNothing(entries, start, done, rest);
    assert done + [""] + rest == done + ([""] + rest);
  }

  /** The nodes are the recorded ones of `walk`, which starts at `start`: once each, without the start. */
  lemma RecordedExactly(byId: map<string, DG.Node>, walk: seq<string>, found: seq<DG.Node>)
    requires walk != [] && Distinct(walk) && found == RecordedNodes(byId, walk[1..])
    requires forall id :: id in byId ==> byId[id].messageId == id
    ensures Distinct(IdsOf(found)) && forall n :: n in found ==> n.messageId in byId && byId[n.messageId] == n
    ensures forall x :: x in IdsOf(found) <==> x in byId && x in walk && x != walk[0]
  {
    var idx := RecordedSelects(byId, walk[1..]);
    RecordedNodesIds(byId, walk[1..]);
    RecordedAreNodes(byId, walk[1..]);
    assert walk == [walk[0]] + walk[1..];
    forall i, j | 0 <= i < j < |found| ensures IdsOf(found)[i] != IdsOf(found)[j] {
      assert idx[i] < idx[j] && walk[1..][idx[i]] == IdsOf(found)[i] && walk[1..][idx[j]] == IdsOf(found)[j];
    }
  }

  /**
   Exactly the recorded nodes below `messageId`, each once and without `messageId` itself, in the order of `walk`:
   nearest first, in that all nodes stand in the order in which the first edge into them is seen.
   */
  method GetDelegationDescendants(graph: Graph, messageId: string)
    returns (descendants: seq<DG.Node>, ghost walk: seq<string>)
    ensures Distinct(IdsOf(descendants))
    ensures forall n :: n in descendants ==> n in graph.nodes
    ensures forall x :: x in IdsOf(descendants) <==>
              x != messageId && x in ById(graph.nodes) && Reaches(WalkedEdges(ParentEdges(graph.edges)), messageId, x)
    ensures walk != [] && walk[0] == messageId && Distinct(walk)
    ensures DiscoveryOrder(ParentEntries(graph.edges), messageId, walk)
    ensures forall x :: x in walk <==> Reaches(WalkedEdges(ParentEdges(graph.edges)), messageId, x)
    ensures descendants == RecordedNodes(ById(graph.nodes), walk[1..])
  {
    var byId := ById(graph.nodes);
    var parentEdges := ParentEntries(graph.edges);
    ghost var g := WalkedEdges(ParentEdges(graph.edges));
    forall id | id in byId ensures byId[id].messageId == id && byId[id] in graph.nodes {
      ByIdNodes(graph.nodes, id);
    }
    descendants, walk := [], [];
    var queue, visited := [messageId], {messageId};
    ReachesSelf(g, messageId);
    StartDiscovering(parentEdges, messageId);
    assert [] + queue == queue && queue[1..] == [];
    ghost var universe := {messageId} + Children(ParentEdges(graph.edges));
    while |queue| > 0
      invariant Walking(g, messageId, visited, queue) && visited <= universe
      invariant Descending(parentEdges, byId, messageId, walk, queue, visited, descendants)
      decreases universe - visited, |queue|
    {
      var current, rest := queue[0], queue[1..];
      assert queue == [current] + rest;
      visited, queue, descendants := Descend(parentEdges, byId, messageId, current, rest, visited, descendants, walk);
      walk := walk + [current];
    }
    WalkingCovers(g, messageId, visited);
    assert walk + [] == walk;
    RecordedExactly(byId, walk, descendants);
  }

  /** Take one node from the queue and visit its children; the empty id is passed over. */
  method Descend(parentEdges: Entries, byId: map<string, DG.Node>, start: string, current: string, rest: seq<string>,
                 visited0: set<string>, found0: seq<DG.Node>, ghost walk: seq<string>)
    returns (visited: set<string>, queue: seq<string>, found: seq<DG.Node>)
    requires Walking(WalkedEdges(EdgesOf(parentEdges)), start, visited0, [current] + rest)
    requires Descending(parentEdges, byId, start, walk, [current] + rest, visited0, found0)
    ensures Walking(WalkedEdges(EdgesOf(parentEdges)), start, visited, queue)
    ensures Descending(parentEdges, byId, start, walk + [current], queue, visited, found)
    ensures visited0 <= visited <= visited0 + Children(EdgesOf(parentEdges))
    ensures visited == visited0 ==> queue == rest
  {
    visited, queue, found := visited0, rest, found0;
    if current != "" {
      ghost var news, first;
      visited, queue, found, news, first := VisitChildren(parentEdges, byId, current, visited, queue, found);
      DescendNews(parentEdges, byId, start, walk, current, rest, visited0, found0, news, first);
      NewsAreTargets(parentEdges, current, visited0, news, first);
    } else {
      DescendPast(parentEdges, byId, start, walk, rest, visited0, found0);
    }
    WalkOn(parentEdges, start, visited0, current, rest, visited, queue);
  }

  lemma {:induction false} RecordedAreNodes(byId: map<string, DG.Node>, ids: seq<string>)
    requires forall id :: id in byId ==> byId[id].messageId == id
    ensures forall n :: n in RecordedNodes(byId, ids) ==> n.messageId in byId && byId[n.messageId] == n
  {
    if ids == [] {
    } else {
      RecordedAreNodes(byId, ids[..|ids| - 1]);
    }
  }

  lemma NewsAreTargets(entries: Entries, current: string, visited: set<string>, news: seq<string>, first: seq<nat>)
    requires NewsOf(entries, current, visited, news, first)
    ensures visited + Elements(news) == visited + (set e | e in entries && e.0 == current :: e.1)
    ensures Elements(news) == (visited + Elements(news)) - visited
    ensures visited + Elements(news) == visited ==> news == []
  {
    assert news != [] ==> news[0] in news && news[0] in Elements(news);
    assert forall e :: e in entries && e.0 == current ==> e == (current, e.1);
  }

  lemma WalkOn(entries: Entries, start: string, before: set<string>, current: string, rest: seq<string>,
               after: set<string>, queue: seq<string>)
    requires Walking(WalkedEdges(EdgesOf(entries)), start, before, [current] + rest)
    requires current == "" ==> after == before && queue == rest
    requires current != "" ==> after == before + (set e | e in entries && e.0 == current :: e.1)
    requires Elements(queue) == Elements(rest) + (after - before)
    ensures Walking(WalkedEdges(EdgesOf(entries)), start, after, queue)
    ensures after <= before + Children(EdgesOf(entries))
  {
    var g := WalkedEdges(EdgesOf(entries));
    assert current in [current] + rest;
    forall x | x in after ensures Reaches(g, start, x) && x in before + Children(EdgesOf(entries)) {
      if x !in before {
        assert (current, x) in entries && (current, x) in EdgesOf(entries);
        ReachesStep(g, start, current, x);
      }
    }
    forall x ensures x in queue <==> x in rest || (x in after && x !in before) {
      assert x in queue <==> x in Elements(queue);
    }
    forall e | e in g && e.0 in after && e.0 !in queue ensures e.1 in after {
      if e.0 != current {
        assert e.0 in before && e.0 !in [current] + rest;
      }
    }
  }

  // ----- getDelegationAncestors -----

  /** The source of the first entry into `x`. */
  function FirstParent(entries: Entries, x: string): (r: Option<string>)
    ensures r.Some? ==> (r.value, x) in entries
    ensures r.None? ==> forall a :: (a, x) !in entries
  {
    if entries == [] then None
    else if entries[0].1 == x then Some(entries[0].0)
    else FirstParent(entries[1..], x)
  }

  lemma ParentIsSource(entries: Entries, x: string)
    ensures FirstParent(entries, x).Some? ==>
              FirstParent(entries, x).value in Parents(EdgesOf(entries)) &&
                (FirstParent(entries, x).value, x) in EdgesOf(entries)
  {
    if FirstParent(entries, x).Some? {
      assert (FirstParent(entries, x).value, x) in EdgesOf(entries);
    }
  }

  /** The parents met on the way up from `x`, nearest first, until there is none or one is met again. */
  function ParentChain(entries: Entries, x: string, visited: set<string>): seq<string>
    decreases Parents(EdgesOf(entries)) - visited
  {
    var parent := FirstParent(entries, x);
    if parent.None? || parent.value in visited then [] else
      ParentIsSource(entries, x);
      [parent.value] + ParentChain(entries, parent.value, visited + {parent.value})
  }

  lemma RecordedPrefix(byId: map<string, DG.Node>, found: seq<DG.Node>, id: string, above: seq<string>)
    ensures found + RecordedNodes(byId, [id] + above) ==
            (if id in byId then found + [byId[id]] else found) + RecordedNodes(byId, above)
  {
    RecordedConcat(byId, [id], above);
    RecordedMore(byId, [], id);
    assert [] + [id] == [id];
  }

  /** The recorded nodes on the parent chain of `messageId`. */
  method GetDelegationAncestors(graph: Graph, messageId: string) returns (ancestors: seq<DG.Node>)
    ensures ancestors == RecordedNodes(ById(graph.nodes), ParentChain(ParentEntries(graph.edges), messageId, {}))
  {
    var byId := ById(graph.nodes);
    var parentEdges := ParentEntries(graph.edges);
    ancestors := [];
    var visited: set<string> := {};
    var current := messageId;
    while true
      invariant ancestors + RecordedNodes(byId, ParentChain(parentEdges, current, visited)) ==
                RecordedNodes(byId, ParentChain(parentEdges, messageId, {}))
      decreases Parents(EdgesOf(parentEdges)) - visited
    {
      var parentEdge := FirstParent(parentEdges, current);
      if parentEdge.None? || parentEdge.value in visited {
        return;
      }
      ParentIsSource(parentEdges, current);
      var parent := parentEdge.value;
      RecordedPrefix(byId, ancestors, parent, ParentChain(parentEdges, parent, visited + {parent}));
      visited := visited + {parent};
      if parent in byId {
        ancestors := ancestors + [byId[parent]];
      }
      current := parent;
    }
  }

  /** A walk of at least one edge from `a` down to `x`. */
  ghost predicate ProperAncestor(g: Edges, a: string, x: string) {
    exists p :: WalkFromTo(g, p, a, x) && |p| > 1
  }

  /** Everything on the parent chain is a proper ancestor, met once. */
  lemma {:induction false} ChainIsAbove(entries: Entries, x: string, visited: set<string>)
    ensures var chain := ParentChain(entries, x, visited);
            Distinct(chain) && (forall a :: a in chain ==> a !in visited) &&
            forall a :: a in chain ==> ProperAncestor(EdgesOf(entries), a, x)
    decreases Parents(EdgesOf(entries)) - visited
  {
    var g, parent := EdgesOf(entries), FirstParent(entries, x);
    if parent.None? || parent.value in visited {
    } else {
      ParentIsSource(entries, x);
      var p := parent.value;
      ChainIsAbove(entries, p, visited + {p});
      var above := ParentChain(entries, p, visited + {p});
      DistinctAppend([p], above);
      forall a | a in [p] + above ensures ProperAncestor(g, a, x) {
        if a == p {
          assert WalkFromTo(g, [p, x], p, x);
        } else {
          var q :| WalkFromTo(g, q, a, p) && |q| > 1;
          WalkExtend(g, q, x);
          assert WalkFromTo(g, q + [x], a, x);
        }
      }
    }
  }

  /**
   With at most one parent the chain misses nothing: parents of `x` and of chain members are on it or visited before.
   */
  lemma {:induction false} ChainIsClosed(entries: Entries, x: string, visited: set<string>, a: string, y: string)
    requires AtMostOneParent(EdgesOf(entries)) && (a, y) in EdgesOf(entries)
    requires y == x || y in ParentChain(entries, x, visited)
    ensures a in ParentChain(entries, x, visited) || a in visited
    decreases Parents(EdgesOf(entries)) - visited
  {
    ParentIsSource(entries, x);
    var parent := FirstParent(entries, x);
    if parent.None? || parent.value in visited {
    } else {
      var p := parent.value;
      if y != x || p != a {
        ChainIsClosed(entries, p, visited + {p}, a, y);
      }
    }
  }

  lemma {:induction false} ChainHasAll(entries: Entries, x: string, p: seq<string>)
    requires AtMostOneParent(EdgesOf(entries)) && IsWalk(EdgesOf(entries), p) && p[|p| - 1] == x && |p| > 1
    ensures p[0] in ParentChain(entries, x, {})
    decreases |p|
  {
    assert (p[0], p[1]) in EdgesOf(entries);
    if |p| == 2 {
    } else {
      SliceIsWalk(EdgesOf(entries), p, 1, |p|);
      ChainHasAll(entries, x, p[1..|p|]);
    }
    ChainIsClosed(entries, x, {}, p[0], p[1]);
  }

  lemma {:induction false} RecordedNodesIds(byId: map<string, DG.Node>, ids: seq<string>)
    requires forall id :: id in byId ==> byId[id].messageId == id
    ensures forall x :: x in IdsOf(RecordedNodes(byId, ids)) <==> x in ids && x in byId
  {
    if ids == [] {
    } else {
      var front, last := ids[..|ids| - 1], ids[|ids| - 1];
      assert ids == front + [last];
      RecordedNodesIds(byId, front);
      IdsOfMore(byId, front, last);
      assert forall x :: x in ids <==> x in front || x == last;
    }
  }

  lemma IdsOfMore(byId: map<string, DG.Node>, front: seq<string>, last: string)
    requires forall id :: id in byId ==> byId[id].messageId == id
    ensures IdsOf(RecordedNodes(byId, front + [last])) ==
            IdsOf(RecordedNodes(byId, front)) + if last in byId then [last] else []
  {
    RecordedMore(byId, front, last);
    var nodes, own := RecordedNodes(byId, front), if last in byId then [byId[last]] else [];
    IdsOfConcat(nodes, own);
  }

  lemma IdsOfConcat(a: seq<DG.Node>, b: seq<DG.Node>)
    ensures IdsOf(a + b) == IdsOf(a) + IdsOf(b)
  {
  }

  /** The positions are those of the recorded ids. */
  ghost predicate AreRecorded(byId: map<string, DG.Node>, ids: seq<string>, idx: seq<nat>) {
    forall j: nat :: j < |ids| ==> (j in idx <==> ids[j] in byId)
  }

  /** Recorded nodes keep the order of the ids. */
  lemma {:induction false} RecordedSelects(byId: map<string, DG.Node>, ids: seq<string>) returns (idx: seq<nat>)
    requires forall id :: id in byId ==> byId[id].messageId == id
    ensures Selects(ids, IdsOf(RecordedNodes(byId, ids)), idx) && AreRecorded(byId, ids, idx)
  {
    if ids == [] {
      idx := [];
    } else {
      var front, last := ids[..|ids| - 1], ids[|ids| - 1];
      assert ids == front + [last];
      var before := RecordedSelects(byId, front);
      SelectsMore(front, IdsOf(RecordedNodes(byId, front)), before, last);
      IdsOfMore(byId, front, last);
      RecordedPositions(byId, front, before, last);
      idx := if last in byId then before + [|front|] else before;
    }
  }

  lemma RecordedPositions(byId: map<string, DG.Node>, front: seq<string>, idx: seq<nat>, last: string)
    requires AreRecorded(byId, front, idx) && forall j :: j in idx ==> j < |front|
    ensures AreRecorded(byId, front + [last], if last in byId then idx + [|front|] else idx)
  {
  }

  /** `a` is the source of the first entry into `x`. */
  ghost predicate IsFirstParent(entries: Entries, x: string, a: string) {
    exists j :: 0 <= j < |entries| && entries[j] == (a, x) && forall k :: 0 <= k < j ==> entries[k].1 != x
  }

  lemma {:induction false} FirstParentIsFirst(entries: Entries, x: string)
    ensures FirstParent(entries, x).Some? ==> IsFirstParent(entries, x, FirstParent(entries, x).value)
  {
    if entries == [] || entries[0].1 == x {
    } else {
      var rest := entries[1..];
      FirstParentIsFirst(rest, x);
      if FirstParent(rest, x).Some? {
        var j :| 0 <= j < |rest| && rest[j] == (FirstParent(rest, x).value, x) &&
                 forall k :: 0 <= k < j ==> rest[k].1 != x;
        assert forall k :: 0 < k < j + 1 ==> entries[k] == rest[k - 1];
        assert entries[j + 1] == rest[j];
      }
    }
  }

  /** `chain` goes up from `x` step by step, each time to the source of the first edge into the node before. */
  ghost predicate ClimbsFrom(entries: Entries, x: string, chain: seq<string>)
    decreases |chain|
  {
    chain == [] || (IsFirstParent(entries, x, chain[0]) && ClimbsFrom(entries, chain[0], chain[1..]))
  }

  /** The last node of the chain, or `x` itself. */
  function Top(x: string, chain: seq<string>): string {
    if chain == [] then x else chain[|chain| - 1]
  }

  /**
   The parent chain, nearest first: it climbs from first parent to first parent, and it ends at a node without a
   parent or with a first parent that was met before.
   */
  lemma {:induction false} ParentChainClimbs(entries: Entries, x: string, visited: set<string>)
    ensures var chain := ParentChain(entries, x, visited);
            ClimbsFrom(entries, x, chain) &&
            ((forall a :: (a, Top(x, chain)) !in entries) ||
             exists a :: IsFirstParent(entries, Top(x, chain), a) && (a in visited || a in chain))
    decreases Parents(EdgesOf(entries)) - visited
  {
    var parent := FirstParent(entries, x);
    FirstParentIsFirst(entries, x);
    if parent.None? || parent.value in visited {
    } else {
      ParentIsSource(entries, x);
      var p := parent.value;
      ParentChainClimbs(entries, p, visited + {p});
      var rest := ParentChain(entries, p, visited + {p});
      assert ([p] + rest)[1..] == rest && Top(p, rest) == Top(x, [p] + rest);
    }
  }

  /** The ancestors as listed: the recorded ones of a chain that climbs from the node, in its order. */
  lemma AncestorsInOrder(graph: Graph, x: string) returns (chain: seq<string>, idx: seq<nat>)
    ensures ClimbsFrom(ParentEntries(graph.edges), x, chain) && Distinct(chain)
    ensures (forall a :: (a, Top(x, chain)) !in ParentEntries(graph.edges)) ||
            exists a :: IsFirstParent(ParentEntries(graph.edges), Top(x, chain), a) && a in chain
    ensures Selects(chain, IdsOf(RecordedNodes(ById(graph.nodes), ParentChain(ParentEntries(graph.edges), x, {}))), idx)
    ensures forall j: nat :: j < |chain| ==> (j in idx <==> exists n :: n in graph.nodes && n.messageId == chain[j])
  {
    chain := ParentChain(ParentEntries(graph.edges), x, {});
    ParentChainClimbs(ParentEntries(graph.edges), x, {});
    ChainIsAbove(ParentEntries(graph.edges), x, {});
    forall id ensures id in ById(graph.nodes) ==> ById(graph.nodes)[id].messageId == id {
      ByIdNodes(graph.nodes, id);
    }
    idx := RecordedSelects(ById(graph.nodes), chain);
    forall j: nat | j < |chain|
      ensures chain[j] in ById(graph.nodes) <==> exists n :: n in graph.nodes && n.messageId == chain[j]
    {
      ByIdNodes(graph.nodes, chain[j]);
    }
  }

  /** With at most one parent per message, the ancestors are exactly the recorded proper ancestors. */
  lemma AncestorsExact(graph: Graph, x: string, a: string)
    requires AtMostOneParent(ParentEdges(graph.edges))
    ensures a in IdsOf(RecordedNodes(ById(graph.nodes), ParentChain(ParentEntries(graph.edges), x, {}))) <==>
              a in ById(graph.nodes) && ProperAncestor(ParentEdges(graph.edges), a, x)
  {
    var entries := ParentEntries(graph.edges);
    forall id | id in ById(graph.nodes) ensures ById(graph.nodes)[id].messageId == id {
      ByIdNodes(graph.nodes, id);
    }
    RecordedNodesIds(ById(graph.nodes), ParentChain(entries, x, {}));
    ChainIsAbove(entries, x, {});
    if ProperAncestor(EdgesOf(entries), a, x) {
      var p :| WalkFromTo(EdgesOf(entries), p, a, x) && |p| > 1;
      ChainHasAll(entries, x, p);
    }
  }

  /**
   In an acyclic graph with at most one parent per message and no empty ids among the parents, `a` is listed
   among the ancestors of `d` exactly when `d` is listed among the descendants of `a`.
   */
  lemma AncestorsMirrorDescendants(graph: Graph, a: string, d: string, ancestors: seq<string>, descendants: seq<string>)
    requires var g := ParentEdges(graph.edges);
             AtMostOneParent(g) && !HasCycle(g) && "" !in Parents(g)
    requires a in ById(graph.nodes) && d in ById(graph.nodes)
    requires ancestors == IdsOf(RecordedNodes(ById(graph.nodes), ParentChain(ParentEntries(graph.edges), d, {})))
    requires forall x :: x in descendants <==>
               x != a && x in ById(graph.nodes) && Reaches(WalkedEdges(ParentEdges(graph.edges)), a, x)
    ensures a in ancestors <==> d in descendants
  {
    var g := ParentEdges(graph.edges);
    assert WalkedEdges(g) == g;
    AncestorsExact(graph, d, a);
    if ProperAncestor(g, a, d) {
      var p :| WalkFromTo(g, p, a, d) && |p| > 1;
      assert a == d ==> IsCycle(g, p);
    }
    if a != d && Reaches(g, a, d) {
      var p :| WalkFromTo(g, p, a, d);
      assert |p| > 1;
    }
  }
}
