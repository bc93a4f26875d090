/** Folding recorded protocol messages into the delegation graph of a trace. */
module DelegationGraph {
  import opened Graphs
  import opened Protocol
  import opened Wrappers

  datatype NodeKind = RequestNode | DelegationNode | ResponseNode

  datatype EdgeKind = Delegates | Subtask | RespondsTo

  datatype Node = Node(messageId: string, traceId: string, agentId: string, kind: NodeKind, capability: Option<string>,
                       to: Option<string>, status: Option<Status>, timestamp: Option<string>,
                         parentMessageId: Option<string>)

  datatype Edge = Edge(source: string, target: string, traceId: string, kind: EdgeKind,
                       fromAgent: string, toAgent: Option<string>, capability: Option<string>)

  /** The value of a mutable graph state; `keys` is the insertion order of the node map. */
  datatype State = State(keys: seq<string>, nodes: map<string, Node>, edges: seq<Edge>)

  const EMPTY := State([], map[], [])

  function Or<T>(a: Option<T>, b: Option<T>): Option<T> {
    if a.Some? then a else b
  }

  function Merge(existing: Node, node: Node): Node {
    Node(existing.messageId, existing.traceId, existing.agentId, node.kind,
         Or(node.capability, existing.capability), Or(node.to, existing.to), Or(node.status, existing.status),
         Or(node.timestamp, existing.timestamp), Or(node.parentMessageId, existing.parentMessageId))
  }

  /** A known node keeps its identity, takes the new kind, and of each other field what is given anew, if anything. */
  ghost predicate IsMerged(existing: Node, given: Node, merged: Node) {
    merged.messageId == existing.messageId && merged.traceId == existing.traceId &&
    merged.agentId == existing.agentId && merged.kind == given.kind &&
    Overrides(existing.capability, given.capability, merged.capability) &&
    Overrides(existing.to, given.to, merged.to) && Overrides(existing.status, given.status, merged.status) &&
    Overrides(existing.timestamp, given.timestamp, merged.timestamp) &&
    Overrides(existing.parentMessageId, given.parentMessageId, merged.parentMessageId)
  }

  ghost predicate Overrides<T>(known: Option<T>, given: Option<T>, result: Option<T>) {
    (given.Some? ==> result == given) && (given.None? ==> result == known)
  }

  function Upsert(s: State, node: Node): State {
    var id := node.messageId;
    if id in s.nodes then s.(nodes := s.nodes[id := Merge(s.nodes[id], node)])
    else s.(keys := s.keys + [id], nodes := s.nodes[id := node])
  }

  /** What makes two edges duplicates. */
  function EdgeKey(e: Edge): (string, string, EdgeKind) {
    (e.source, e.target, e.kind)
  }

  function EdgeKeys(edges: seq<Edge>): set<(string, string, EdgeKind)> {
    set e | e in edges :: EdgeKey(e)
  }

  lemma EdgeKeysGrow(edges: seq<Edge>, i: nat)
    requires i < |edges|
    ensures EdgeKeys(edges[..i + 1]) == EdgeKeys(edges[..i]) + {EdgeKey(edges[i])}
  {
    assert edges[..i + 1] == edges[..i] + [edges[i]];
  }

  function InsertEdge(s: State, e: Edge): State {
    if EdgeKey(e) in EdgeKeys(s.edges) then s else s.(edges := s.edges + [e])
  }

  function AgentFor(s: State, id: string, fallback: string): string {
    if id in s.nodes then s.nodes[id].agentId else fallback
  }

  /** A message with the parent it is recorded under; only a request takes its parent from here. */
  datatype Recording = Recording(message: Message, parent: Option<string>)

  /** The parent a recording names, whichever field it comes from. */
  function ParentOf(r: Recording): Option<string> {
    match r.message
    case TaskRequest(_, _, _, _, _, _) => r.parent
    case Delegation(_, _, _, _, _, _, parentId) => Some(parentId)
    case TaskResponse(_, _, _, inReplyTo, _, _) => Some(inReplyTo)
    case CapabilityQuery(_, _, _, _) => None
  }

  function KindOfEdge(m: Message): EdgeKind {
    match m
    case TaskRequest(_, _, _, _, _, _) => Subtask
    case Delegation(_, _, _, _, _, _, _) => Delegates
    case _ => RespondsTo
  }

  /** The node a message stands for, under a given parent. */
  function NodeOf(m: Message, parent: Option<string>): Node
    requires !m.CapabilityQuery?
  {
    match m
    case TaskRequest(id, trace, sender, to, capability, time) =>
      Node(id, trace, sender, RequestNode, Some(capability), to, None, Some(time), parent)
    case Delegation(id, trace, sender, to, capability, time, _) =>
      Node(id, trace, sender, DelegationNode, Some(capability), to, None, Some(time), parent)
    case TaskResponse(id, trace, sender, _, status, time) =>
      Node(id, trace, sender, ResponseNode, None, None, Some(status), Some(time), parent)
  }

  function EdgeOf(s: State, m: Message, parent: string): Edge
    requires !m.CapabilityQuery?
  {
    var agent := AgentFor(s, parent, m.sender);
    match m
    case TaskRequest(id, trace, _, to, capability, _) => Edge(parent, id, trace, Subtask, agent, to, Some(capability))
    case Delegation(id, trace, _, to, capability, _, _) =>
      Edge(parent, id, trace, Delegates, agent, to, Some(capability))
    case TaskResponse(id, trace, sender, _, _, _) => Edge(parent, id, trace, RespondsTo, agent, Some(sender), None)
  }

  /** Recording one message: nothing for a capability query, else its node and the edge from its parent. */
  function Apply(s: State, r: Recording): State {
    if r.message.CapabilityQuery? then s else
      var noded := Upsert(s, NodeOf(r.message, ParentOf(r)));
      if ParentOf(r).None? then noded else InsertEdge(noded, EdgeOf(noded, r.message, ParentOf(r).value))
  }

  function ApplyAll(log: seq<Recording>): State {
    if log == [] then EMPTY else Apply(ApplyAll(log[..|log| - 1]), log[|log| - 1])
  }

  /** The mutable state the recorder and the batch builder update in place. */
  class MutableDelegationGraphState {
    const traceId: string
    var keys: seq<string>
    var nodes: map<string, Node>
    var edges: seq<Edge>

    function View(): State
      reads this
    {
      State(keys, nodes, edges)
    }

    constructor (traceId: string)
      ensures View() == EMPTY && this.traceId == traceId
    {
      this.traceId := traceId;
      keys, nodes, edges := [], map[], [];
    }

    method UpsertNode(node: Node)
      modifies this
      ensures View() == Upsert(old(View()), node)
      ensures node.messageId in nodes && edges == old(edges)
      ensures if node.messageId in old(nodes)
              then keys == old(keys) && IsMerged(old(nodes)[node.messageId], node, nodes[node.messageId])
              else keys == old(keys) + [node.messageId] && nodes[node.messageId] == node
      ensures nodes - {node.messageId} == old(nodes) - {node.messageId}
    {
      if node.messageId !in nodes {
        keys := keys + [node.messageId];
        nodes := nodes[node.messageId := node];
        return;
      }
      nodes := nodes[node.messageId := Merge(nodes[node.messageId], node)];
    }

    method AddEdge(edge: Edge)
      modifies this
      ensures View() == InsertEdge(old(View()), edge)
    {
      var duplicate := false;
      for i := 0 to |edges|
        invariant View() == old(View())
        invariant duplicate <==> EdgeKey(edge) in EdgeKeys(edges[..i])
      {
        EdgeKeysGrow(edges, i);
        var existing := edges[i];
        if existing.source == edge.source && existing.target == edge.target && existing.kind == edge.kind {
          duplicate := true;
        }
      }
      assert edges[..|edges|] == edges;
      if !duplicate {
        edges := edges + [edge];
      }
    }

    method ApplyMessage(message: Message, parent: Option<string>)
      modifies this
      ensures View() == Apply(old(View()), Recording(message, parent))
    {
      if message.CapabilityQuery? {
        return;
      }
      var source := ParentOf(Recording(message, parent));
      UpsertNode(NodeOf(message, source));
      if source.Some? {
        AddEdge(EdgeOf(View(), message, source.value));
      }
    }
  }

  /** Build the state of a message log from scratch. */
  method BuildFromRecordings(traceId: string, log: seq<Recording>) returns (state: MutableDelegationGraphState)
    ensures fresh(state) && state.traceId == traceId && state.View() == ApplyAll(log)
  {
    state := new MutableDelegationGraphState(traceId);
    for i := 0 to |log|
      invariant fresh(state) && state.traceId == traceId && state.View() == ApplyAll(log[..i])
    {
      state.ApplyMessage(log[i].message, log[i].parent);
      assert log[..i + 1][..i] == log[..i];
    }
    assert log[..|log|] == log;
  }

  // ----- What a log determines, whatever its order -----

  /** Equal ids mean equal messages, and a request is recorded with one parent or without it. */
  ghost predicate Coherent(log: seq<Recording>) {
    forall a, b :: a in log && b in log && a.message.id == b.message.id ==>
      a.message == b.message && (ParentOf(a).Some? && ParentOf(b).Some? ==> ParentOf(a) == ParentOf(b))
  }

  /** Some recording of message `id` names `parent`. */
  ghost predicate Names(log: seq<Recording>, id: string, parent: string) {
    exists r :: r in log && r.message.id == id && ParentOf(r) == Some(parent)
  }

  ghost predicate Recorded(log: seq<Recording>, m: Message) {
    exists r :: r in log && r.message == m && !m.CapabilityQuery?
  }

  /** The node of `m` after the whole log: its parent is there when any recording named it. */
  ghost predicate IsNodeOf(log: seq<Recording>, m: Message, node: Node) {
    !m.CapabilityQuery? && node == NodeOf(m, node.parentMessageId) &&
    (forall p :: node.parentMessageId == Some(p) ==> Names(log, m.id, p)) &&
    (node.parentMessageId.None? ==> forall p :: !Names(log, m.id, p))
  }

  /** The state described by the log as a set of recordings. */
  ghost predicate Describes(log: seq<Recording>, s: State) {
    Distinct(s.keys) && Elements(s.keys) == s.nodes.Keys && NodesDescribed(log, s.nodes) && EdgesDescribed(log, s.edges)
  }

  ghost predicate NodesDescribed(log: seq<Recording>, nodes: map<string, Node>) {
    (forall m: Message :: Recorded(log, m) ==> m.id in nodes && IsNodeOf(log, m, nodes[m.id])) &&
    (forall id :: id in nodes ==> nodes[id].messageId == id) &&
    forall id {:trigger HasMessage(log, id)} :: id in nodes ==> HasMessage(log, id)
  }

  /** No edge is recorded twice for the same endpoints and kind. */
  ghost predicate DistinctEdges(edges: seq<Edge>) {
    forall i, j :: 0 <= i < j < |edges| ==> EdgeKey(edges[i]) != EdgeKey(edges[j])
  }

  ghost predicate EdgesDescribed(log: seq<Recording>, edges: seq<Edge>) {
    DistinctEdges(edges) && forall k {:trigger EdgeNamed(log, k)} :: k in EdgeKeys(edges) <==> EdgeNamed(log, k)
  }

  ghost predicate HasMessage(log: seq<Recording>, id: string) {
    exists m :: Recorded(log, m) && m.id == id
  }

  ghost predicate EdgeNamed(log: seq<Recording>, key: (string, string, EdgeKind)) {
    exists r :: r in log && NamesEdge(r, key)
  }

  ghost predicate NamesEdge(r: Recording, key: (string, string, EdgeKind)) {
    !r.message.CapabilityQuery? && ParentOf(r) == Some(key.0) && key.1 == r.message.id && key.2 == KindOfEdge(r.message)
  }

  /** Recording `last` after a log that described the state keeps the state described. */
  lemma UpsertDescribes(front: seq<Recording>, last: Recording, nodes: map<string, Node>)
    requires Coherent(front + [last]) && !last.message.CapabilityQuery?
    requires last.message.id in nodes ==> HasMessage(front, last.message.id)
    requires forall m: Message :: Recorded(front, m) ==> m.id in nodes && IsNodeOf(front, m, nodes[m.id])
    ensures var id, node := last.message.id, NodeOf(last.message, ParentOf(last));
            IsNodeOf(front + [last], last.message, if id in nodes then Merge(nodes[id], node) else node)
  {
    var log := front + [last];
    var id, node := last.message.id, NodeOf(last.message, ParentOf(last));
    assert last in log;
    forall p ensures Names(log, id, p) <==> Names(front, id, p) || ParentOf(last) == Some(p) {
      NamesGrows(front, last, id, p);
    }
    if id in nodes {
      var m :| Recorded(front, m) && m.id == id;
      var r :| r in front && r.message == m;
      assert r in log && m == last.message;
      assert IsNodeOf(front, m, nodes[id]);
    } else {
      forall p ensures !Names(front, id, p) {
        if Names(front, id, p) {
          var m := NamedIsRecorded(front, id, p);
        }
      }
    }
  }

  lemma NamedIsRecorded(log: seq<Recording>, id: string, p: string) returns (m: Message)
    requires Names(log, id, p)
    ensures Recorded(log, m) && m.id == id
  {
    var r :| r in log && r.message.id == id && ParentOf(r) == Some(p);
    m := r.message;
  }

  lemma NamesGrows(front: seq<Recording>, last: Recording, id: string, p: string)
    ensures Names(front + [last], id, p) <==>
            Names(front, id, p) || (last.message.id == id && ParentOf(last) == Some(p))
  {
    var log := front + [last];
    assert forall r :: r in log <==> r in front || r == last;
  }

  /** A recording under another id leaves a node as it was described. */
  lemma OtherNodeStays(front: seq<Recording>, last: Recording, m: Message, node: Node)
    requires IsNodeOf(front, m, node) && (last.message.id != m.id || last.message.CapabilityQuery?)
    ensures IsNodeOf(front + [last], m, node)
  {
    forall p ensures Names(front + [last], m.id, p) <==> Names(front, m.id, p) {
      NamesGrows(front, last, m.id, p);
    }
  }

  lemma RecordedGrows(front: seq<Recording>, last: Recording, m: Message)
    ensures Recorded(front + [last], m) <==> Recorded(front, m) || (m == last.message && !m.CapabilityQuery?)
  {
    var log := front + [last];
    assert forall r :: r in log <==> r in front || r == last;
  }

  lemma EdgeNamedGrows(front: seq<Recording>, last: Recording, key: (string, string, EdgeKind))
    ensures EdgeNamed(front + [last], key) <==> EdgeNamed(front, key) || NamesEdge(last, key)
  {
    var log := front + [last];
    assert forall r :: r in log <==> r in front || r == last;
  }

  lemma CoherentFront(front: seq<Recording>, last: Recording)
    requires Coherent(front + [last])
    ensures Coherent(front)
  {
    assert forall r :: r in front ==> r in front + [last];
  }

  /** The node map after one more recording, message by message. */
  lemma NodeStep(front: seq<Recording>, last: Recording, s: State, m: Message)
    requires Coherent(front + [last]) && NodesDescribed(front, s.nodes) && Recorded(front + [last], m)
    ensures var nodes := Apply(s, last).nodes; m.id in nodes && IsNodeOf(front + [last], m, nodes[m.id])
  {
    RecordedGrows(front, last, m);
    if m == last.message {
      UpsertDescribes(front, last, s.nodes);
    } else {
      SameIdSameMessage(front, last, m);
      OtherNodeStays(front, last, m, s.nodes[m.id]);
    }
  }

  lemma IdStep(front: seq<Recording>, last: Recording, s: State, id: string)
    requires NodesDescribed(front, s.nodes) && id in Apply(s, last).nodes
    ensures Apply(s, last).nodes[id].messageId == id && HasMessage(front + [last], id)
  {
    if id in s.nodes {
      assert HasMessage(front, id);
      var m :| Recorded(front, m) && m.id == id;
      RecordedGrows(front, last, m);
    } else {
      RecordedGrows(front, last, last.message);
    }
  }

  lemma KeysStep(last: Recording, s: State)
    requires Distinct(s.keys) && Elements(s.keys) == s.nodes.Keys
    ensures var s' := Apply(s, last); Distinct(s'.keys) && Elements(s'.keys) == s'.nodes.Keys
  {
    if !last.message.CapabilityQuery? && last.message.id !in s.nodes {
      assert last.message.id !in Elements(s.keys);
      DistinctAppend(s.keys, [last.message.id]);
    }
  }

  lemma SameIdSameMessage(front: seq<Recording>, last: Recording, m: Message)
    requires Coherent(front + [last]) && Recorded(front, m)
    ensures m.id == last.message.id ==> m == last.message
  {
    var r :| r in front && r.message == m;
    assert r in front + [last] && last in front + [last];
  }

  lemma InsertEdgeKeys(s: State, e: Edge)
    requires DistinctEdges(s.edges)
    ensures EdgeKeys(InsertEdge(s, e).edges) == EdgeKeys(s.edges) + {EdgeKey(e)}
    ensures DistinctEdges(InsertEdge(s, e).edges)
  {
    if EdgeKey(e) !in EdgeKeys(s.edges) {
      var edges := s.edges + [e];
      EdgeKeysGrow(edges, |s.edges|);
      assert edges[..|s.edges|] == s.edges && edges[..|s.edges| + 1] == edges;
      forall i | 0 <= i < |s.edges| ensures EdgeKey(s.edges[i]) != EdgeKey(e) {
        assert s.edges[i] in s.edges && EdgeKey(s.edges[i]) in EdgeKeys(s.edges);
      }
    }
  }

  lemma EdgesStep(front: seq<Recording>, last: Recording, s: State)
    requires EdgesDescribed(front, s.edges)
    ensures EdgesDescribed(front + [last], Apply(s, last).edges)
  {
    var log := front + [last];
    if !last.message.CapabilityQuery? && ParentOf(last).Some? {
      var noded := Upsert(s, NodeOf(last.message, ParentOf(last)));
      InsertEdgeKeys(noded, EdgeOf(noded, last.message, ParentOf(last).value));
    }
    forall k ensures k in EdgeKeys(Apply(s, last).edges) <==> EdgeNamed(log, k) {
      EdgeNamedGrows(front, last, k);
      assert k in EdgeKeys(s.edges) <==> EdgeNamed(front, k);
    }
  }

  /** The state after a coherent log is the one its recordings describe. */
  lemma {:induction false} LogDescribesState(log: seq<Recording>)
    requires Coherent(log)
    ensures Describes(log, ApplyAll(log))
  {
    if log == [] {
    } else {
      var front, last := log[..|log| - 1], log[|log| - 1];
      assert front + [last] == log;
      CoherentFront(front, last);
      LogDescribesState(front);
      var s := ApplyAll(front);
      KeysStep(last, s);
      EdgesStep(front, last, s);
      forall m: Message | Recorded(log, m)
        ensures m.id in ApplyAll(log).nodes && IsNodeOf(log, m, ApplyAll(log).nodes[m.id])
      {
        NodeStep(front, last, s, m);
      }
      forall id | id in ApplyAll(log).nodes ensures ApplyAll(log).nodes[id].messageId == id && HasMessage(log, id) {
        IdStep(front, last, s, id);
      }
    }
  }

  /** The two logs record the same messages and name the same parents, in whatever order and however often. */
  ghost predicate SameContent(a: seq<Recording>, b: seq<Recording>) {
    (forall m :: Recorded(a, m) <==> Recorded(b, m)) && forall id, p :: Names(a, id, p) <==> Names(b, id, p)
  }

  lemma SameElementsSameContent(a: seq<Recording>, b: seq<Recording>)
    requires Elements(a) == Elements(b)
    ensures SameContent(a, b) && (Coherent(a) ==> Coherent(b))
  {
    assert forall r :: r in a <==> r in Elements(a);
    assert forall r :: r in b <==> r in Elements(b);
  }

  /** Coherent logs of the same content name the same edges. */
  lemma ContentNamesEdge(a: seq<Recording>, b: seq<Recording>, key: (string, string, EdgeKind))
    requires Coherent(b) && SameContent(a, b) && EdgeNamed(a, key)
    ensures EdgeNamed(b, key)
  {
    var r :| r in a && NamesEdge(r, key);
    assert Recorded(a, r.message) && Names(a, key.1, key.0);
    var q :| q in b && q.message.id == key.1 && ParentOf(q) == Some(key.0);
    var m :| m in b && m.message == r.message && !m.message.CapabilityQuery?;
    assert NamesEdge(q, key);
  }

  /** Two coherent logs of the same content give the same node map and the same edges up to agent labels. */
  lemma SameContentSameGraph(a: seq<Recording>, b: seq<Recording>)
    requires Coherent(a) && Coherent(b) && SameContent(a, b)
    ensures ApplyAll(a).nodes == ApplyAll(b).nodes
    ensures EdgeKeys(ApplyAll(a).edges) == EdgeKeys(ApplyAll(b).edges)
    ensures |ApplyAll(a).edges| == |ApplyAll(b).edges|
  {
    LogDescribesState(a);
    LogDescribesState(b);
    var sa, sb := ApplyAll(a), ApplyAll(b);
    NodesFromLog(a, b, sa.nodes, sb.nodes);
    NodesFromLog(b, a, sb.nodes, sa.nodes);
    forall k ensures k in EdgeKeys(sa.edges) <==> k in EdgeKeys(sb.edges) {
      assert k in EdgeKeys(sa.edges) <==> EdgeNamed(a, k);
      assert k in EdgeKeys(sb.edges) <==> EdgeNamed(b, k);
      if EdgeNamed(a, k) {
        ContentNamesEdge(a, b, k);
      } else if EdgeNamed(b, k) {
        ContentNamesEdge(b, a, k);
      }
    }
    EdgeCount(sa.edges);
    EdgeCount(sb.edges);
  }

  /**
   Order and repetition do not matter: two coherent logs with the same recordings, in any order and any
   number of copies, give the same node map and the same edges up to agent labels.
   */
  lemma LogOrderIrrelevant(a: seq<Recording>, b: seq<Recording>)
    requires Coherent(a) && Elements(a) == Elements(b)
    ensures ApplyAll(a).nodes == ApplyAll(b).nodes
    ensures EdgeKeys(ApplyAll(a).edges) == EdgeKeys(ApplyAll(b).edges)
    ensures |ApplyAll(a).edges| == |ApplyAll(b).edges|
  {
    SameElementsSameContent(a, b);
    SameContentSameGraph(a, b);
  }

  lemma NodesFromLog(a: seq<Recording>, b: seq<Recording>, na: map<string, Node>, nb: map<string, Node>)
    requires Coherent(a) && SameContent(a, b) && NodesDescribed(a, na) && NodesDescribed(b, nb)
    ensures forall id :: id in na ==> id in nb && nb[id] == na[id]
  {
    forall id | id in na ensures id in nb && nb[id] == na[id] {
      assert HasMessage(a, id);
      var m :| Recorded(a, m) && m.id == id;
      assert IsNodeOf(a, m, na[id]) && IsNodeOf(b, m, nb[id]);
      SameParent(a, b, m, na[id], nb[id]);
    }
  }

  lemma SameParent(a: seq<Recording>, b: seq<Recording>, m: Message, x: Node, y: Node)
    requires Coherent(a) && IsNodeOf(a, m, x) && IsNodeOf(b, m, y)
    requires forall p :: Names(a, m.id, p) <==> Names(b, m.id, p)
    ensures x == y
  {
    if x.parentMessageId.Some? {
      assert Names(a, m.id, x.parentMessageId.value);
    }
    if y.parentMessageId.Some? {
      assert Names(a, m.id, y.parentMessageId.value);
    }
  }

  lemma {:induction false} EdgeCount(edges: seq<Edge>)
    requires DistinctEdges(edges)
    ensures |EdgeKeys(edges)| == |edges|
  {
    if edges != [] {
      var n := |edges| - 1;
      EdgeCount(edges[..n]);
      EdgeKeysGrow(edges, n);
      assert edges[..n + 1] == edges;
      forall i | 0 <= i < n ensures EdgeKey(edges[..n][i]) != EdgeKey(edges[n]) {
      }
    } else {
      assert EdgeKeys(edges) == {};
    }
  }
}
