/** Rebuilding a delegation graph from the memory entries that recorded its messages. */
module MemoryReplay {
  import opened Graphs
  import opened DelegationDepth
  import opened Protocol
  import opened Wrappers
  import DG = DelegationGraph

  datatype EntryKind = RequestEntry | DelegationEntry | ResponseEntry | OutputEntry | DecisionEntry

  /** A memory entry with the payload fields the graph is rebuilt from. */
  datatype GraphEntry = GraphEntry(kind: EntryKind, messageId: Option<string>, traceId: string, agentId: string,
                                   capability: Option<string>,
                         status: Option<Status>, createdAt: string, to: Option<string>, parentMessageId: Option<string>,
                         inReplyTo: Option<string>)

  /** What the memory recorder is told: a message with the parent it is recorded under, or a decision of an agent. */
  datatype Occurrence =
    | Sent(recording: DG.Recording, hasOutput: bool, createdAt: string)
    | Decided(traceId: string, agentId: string, createdAt: string)

  /** The entry appended for an occurrence; capability queries leave none. */
  function EntryOf(o: Occurrence): Option<GraphEntry> {
    match o
    case Decided(trace, agent, at) =>
      Some(GraphEntry(DecisionEntry, None, trace, agent, None, None, at, None, None, None))
    case Sent(r, hasOutput, at) =>
      match r.message
      case TaskRequest(id, trace, sender, to, capability, _) =>
        Some(GraphEntry(RequestEntry, Some(id), trace, sender, Some(capability), None, at, to, r.parent, None))
      case Delegation(id, trace, sender, to, capability, _, parentId) =>
        Some(GraphEntry(DelegationEntry, Some(id), trace, sender, Some(capability), None, at, to, Some(parentId), None))
      case TaskResponse(id, trace, sender, inReplyTo, status, _) =>
        Some(GraphEntry(if hasOutput then OutputEntry else ResponseEntry, Some(id), trace, sender, None, Some(status),
                        at, None, None, Some(inReplyTo)))
      case CapabilityQuery(_, _, _, _) => None
  }

  /** The entries of a history, in order. */
  function EntriesOf(history: seq<Occurrence>): seq<GraphEntry> {
    if history == [] then [] else
      var last := EntryOf(history[|history| - 1]);
      EntriesOf(history[..|history| - 1]) + if last.Some? then [last.value] else []
  }

  predicate Present(s: Option<string>) {
    s.Some? && s.value != ""
  }

  /** Put one entry into the graph; entries without a message id, or without the parent they need, are skipped. */
  method ApplyMemoryEntry(state: DG.MutableDelegationGraphState, entry: GraphEntry)
    modifies state
    ensures state.View() == Applied(old(state.View()), entry)
  {
    if !Present(entry.messageId) {
      return;
    }
    var id := entry.messageId.value;
    if entry.kind.RequestEntry? {
      var parent := entry.parentMessageId;
      state.UpsertNode(DG.Node(id, entry.traceId, entry.agentId, DG.RequestNode, entry.capability, entry.to, None,
                               Some(entry.createdAt), parent));
      if parent.Some? {
        var agent := DG.AgentFor(state.View(), parent.value, entry.agentId);
        state.AddEdge(DG.Edge(parent.value, id, entry.traceId, DG.Subtask, agent, entry.to, entry.capability));
      }
    } else if entry.kind.DelegationEntry? {
      var parent := entry.parentMessageId;
      if !Present(parent) {
        return;
      }
      state.UpsertNode(DG.Node(id, entry.traceId, entry.agentId, DG.DelegationNode, entry.capability, entry.to, None,
                               Some(entry.createdAt), parent));
      var agent := DG.AgentFor(state.View(), parent.value, entry.agentId);
      state.AddEdge(DG.Edge(parent.value, id, entry.traceId, DG.Delegates, agent, entry.to, entry.capability));
    } else if entry.kind.ResponseEntry? || entry.kind.OutputEntry? {
      var request := entry.inReplyTo;
      if !Present(request) {
        return;
      }
      state.UpsertNode(DG.Node(id, entry.traceId, entry.agentId, DG.ResponseNode, None, None, entry.status,
                               Some(entry.createdAt), request));
      var agent := DG.AgentFor(state.View(), request.value, entry.agentId);
      state.AddEdge(DG.Edge(request.value, id, entry.traceId, DG.RespondsTo, agent, Some(entry.agentId), None));
    }
  }

  /** The kind of node an entry gives, if it gives one. */
  function NodeKindOf(e: GraphEntry): Option<DG.NodeKind> {
    match e.kind
    case RequestEntry => Some(DG.RequestNode)
    case DelegationEntry => if Present(e.parentMessageId) then Some(DG.DelegationNode) else None
    case DecisionEntry => None
    case _ => if Present(e.inReplyTo) then Some(DG.ResponseNode) else None
  }

  function SourceOf(e: GraphEntry): Option<string> {
    if e.kind.RequestEntry? || e.kind.DelegationEntry? then e.parentMessageId else e.inReplyTo
  }

  /** The graph state after one entry. */
  function Applied(s: DG.State, e: GraphEntry): DG.State {
    if !Present(e.messageId) || NodeKindOf(e).None? then s else
      var id, kind, source := e.messageId.value, NodeKindOf(e).value, SourceOf(e);
      var response := kind.ResponseNode?;
      var noded := DG.Upsert(s, DG.Node(id, e.traceId, e.agentId, kind, if response then None else e.capability,
                                        if response then None else e.to,
                                        if response then e.status else None, Some(e.createdAt), source));
      if source.None? then noded else
        var edgeKind := if response then DG.RespondsTo else if kind.DelegationNode? then DG.Delegates else DG.Subtask;
        DG.InsertEdge(noded, DG.Edge(source.value, id, e.traceId, edgeKind, DG.AgentFor(noded, source.value, e.agentId),
                                     if response then Some(e.agentId) else e.to,
                                     if response then None else e.capability))
  }

  function AppliedAll(entries: seq<GraphEntry>): DG.State {
    if entries == [] then DG.EMPTY else Applied(AppliedAll(entries[..|entries| - 1]), entries[|entries| - 1])
  }

  /** Build the state from stored entries, in their order. */
  method BuildFromMemoryEntries(traceId: string, entries: seq<GraphEntry>)
    returns (state: DG.MutableDelegationGraphState)
    ensures fresh(state) && state.traceId == traceId && state.View() == AppliedAll(entries)
  {
    state := new DG.MutableDelegationGraphState(traceId);
    for i := 0 to |entries|
      invariant fresh(state) && state.traceId == traceId && state.View() == AppliedAll(entries[..i])
    {
      ApplyMemoryEntry(state, entries[i]);
      assert entries[..i + 1][..i] == entries[..i];
    }
    assert entries[..|entries|] == entries;
  }

  lemma {:induction false} AppliedKeys(entries: seq<GraphEntry>)
    ensures var s := AppliedAll(entries); Distinct(s.keys) && Elements(s.keys) == s.nodes.Keys
  {
    if entries == [] {
    } else {
      var before, e := AppliedAll(entries[..|entries| - 1]), entries[|entries| - 1];
      AppliedKeys(entries[..|entries| - 1]);
      if Present(e.messageId) && NodeKindOf(e).Some? && e.messageId.value !in before.nodes {
        assert e.messageId.value !in Elements(before.keys);
        DistinctAppend(before.keys, [e.messageId.value]);
      }
    }
  }

  /** The graph of stored entries; there is none without entries or without a trace id. */
  method BuildDelegationGraphFromMemoryEntries(entries: seq<GraphEntry>) returns (graph: Option<Graph>)
    ensures graph.None? <==> entries == [] || entries[0].traceId == ""
    ensures var s := AppliedAll(entries);
            Elements(s.keys) == s.nodes.Keys && (graph.Some? ==> graph.value == Finalize(s))
  {
    AppliedKeys(entries);
    if |entries| == 0 || entries[0].traceId == "" {
      return None;
    }
    var state := BuildFromMemoryEntries(entries[0].traceId, entries);
    var finalized := FinalizeDelegationGraph(state);
    graph := Some(finalized);
  }

  // ----- The rebuilt graph -----

  /** Message recordings the rebuilt graph keeps: they have an id, and a parent where one is needed. */
  predicate Replayable(r: DG.Recording) {
    r.message.id != "" &&
    match r.message
    case TaskRequest(_, _, _, _, _, _) => true
    case Delegation(_, _, _, _, _, _, parentId) => parentId != ""
    case TaskResponse(_, _, _, inReplyTo, _, _) => inReplyTo != ""
    case CapabilityQuery(_, _, _, _) => false
  }

  /** The recordings of a history that can be replayed, in order. */
  function Replayed(history: seq<Occurrence>): seq<DG.Recording> {
    if history == [] then [] else
      var last := history[|history| - 1];
      Replayed(history[..|history| - 1]) + if last.Sent? && Replayable(last.recording) then [last.recording] else []
  }

  function Recordings(history: seq<Occurrence>): seq<DG.Recording> {
    if history == [] then [] else
      var last := history[|history| - 1];
      Recordings(history[..|history| - 1]) + if last.Sent? then [last.recording] else []
  }

  /** A node without its time, which a memory entry does not keep. */
  function Timeless(n: DG.Node): DG.Node {
    n.(timestamp := None)
  }

  /** Equal up to the times of nodes. */
  ghost predicate SameGraph(a: DG.State, b: DG.State) {
    a.keys == b.keys && a.edges == b.edges && a.nodes.Keys == b.nodes.Keys &&
    forall id :: id in a.nodes ==> Timeless(a.nodes[id]) == Timeless(b.nodes[id])
  }

  lemma UpsertSame(a: DG.State, b: DG.State, x: DG.Node, y: DG.Node)
    requires SameGraph(a, b) && Timeless(x) == Timeless(y)
    ensures SameGraph(DG.Upsert(a, x), DG.Upsert(b, y))
  {
    var id := x.messageId;
    assert id == y.messageId;
    if id in a.nodes {
      assert Timeless(a.nodes[id]) == Timeless(b.nodes[id]);
      MergeSame(a.nodes[id], b.nodes[id], x, y);
    }
  }

  lemma MergeSame(a: DG.Node, b: DG.Node, x: DG.Node, y: DG.Node)
    requires Timeless(a) == Timeless(b) && Timeless(x) == Timeless(y)
    ensures Timeless(DG.Merge(a, x)) == Timeless(DG.Merge(b, y))
  {
  }

  lemma AgentSame(a: DG.State, b: DG.State, id: string, fallback: string)
    requires SameGraph(a, b)
    ensures DG.AgentFor(a, id, fallback) == DG.AgentFor(b, id, fallback)
  {
    if id in a.nodes {
      assert Timeless(a.nodes[id]).agentId == Timeless(b.nodes[id]).agentId;
    }
  }

  /** An entry puts in the node and the edge of its message, with the time of the entry. */
  lemma EntryApplies(a: DG.State, r: DG.Recording, hasOutput: bool, at: string)
    requires Replayable(r)
    ensures var e, source := EntryOf(Sent(r, hasOutput, at)).value, DG.ParentOf(r);
            var noded := DG.Upsert(a, DG.NodeOf(r.message, source).(timestamp := Some(at)));
            Applied(a, e) == if source.None? then noded
                             else DG.InsertEdge(noded, DG.EdgeOf(noded, r.message, source.value))
  {
  }

  lemma InsertSame(a: DG.State, b: DG.State, m: Message, source: string)
    requires SameGraph(a, b) && !m.CapabilityQuery?
    ensures SameGraph(DG.InsertEdge(a, DG.EdgeOf(a, m, source)), DG.InsertEdge(b, DG.EdgeOf(b, m, source)))
  {
    AgentSame(a, b, source, m.sender);
  }

  /** The entry of a replayable message does to one state what the message does to the other. */
  lemma EntryStep(a: DG.State, b: DG.State, r: DG.Recording, hasOutput: bool, at: string)
    requires SameGraph(a, b) && Replayable(r)
    ensures var e := EntryOf(Sent(r, hasOutput, at)).value;
            SameGraph(Applied(a, e), DG.Apply(b, r))
  {
    var source := DG.ParentOf(r);
    var x, y := DG.NodeOf(r.message, source).(timestamp := Some(at)), DG.NodeOf(r.message, source);
    EntryApplies(a, r, hasOutput, at);
    UpsertSame(a, b, x, y);
    if source.Some? {
      InsertSame(DG.Upsert(a, x), DG.Upsert(b, y), r.message, source.value);
    }
  }

  /** The entry of anything else changes nothing. */
  lemma EntrySkipped(s: DG.State, o: Occurrence)
    requires !(o.Sent? && Replayable(o.recording))
    ensures EntryOf(o).Some? ==> Applied(s, EntryOf(o).value) == s
  {
  }

  /** Entries and recordings of any history: the rebuilt graph is the graph of the replayable messages, times aside. */
  lemma {:induction false} RebuiltGraph(history: seq<Occurrence>)
    ensures SameGraph(AppliedAll(EntriesOf(history)), DG.ApplyAll(Replayed(history)))
  {
    if history == [] {
    } else {
      var front, last := history[..|history| - 1], history[|history| - 1];
      RebuiltGraph(front);
      var entries, messages := EntriesOf(front), Replayed(front);
      if EntryOf(last).Some? {
        assert (entries + [EntryOf(last).value])[..|entries|] == entries;
      } else {
        assert entries + [] == entries;
      }
      if last.Sent? && Replayable(last.recording) {
        assert (messages + [last.recording])[..|messages|] == messages;
        EntryStep(AppliedAll(entries), DG.ApplyAll(messages), last.recording, last.hasOutput, last.createdAt);
      } else {
        assert messages + [] == messages;
        EntrySkipped(AppliedAll(entries), last);
      }
    }
  }

  /** Every recorded message can be replayed, or is a capability query, which no graph holds. */
  ghost predicate AllReplayable(history: seq<Occurrence>) {
    forall o :: o in history && o.Sent? ==> Replayable(o.recording) || o.recording.message.CapabilityQuery?
  }

  lemma {:induction false} ReplayedMeansRecorded(history: seq<Occurrence>)
    requires AllReplayable(history)
    ensures DG.ApplyAll(Replayed(history)) == DG.ApplyAll(Recordings(history))
  {
    if history == [] {
    } else {
      var front, last := history[..|history| - 1], history[|history| - 1];
      assert last in history && forall o :: o in front ==> o in history;
      ReplayedMeansRecorded(front);
      var some, all := Replayed(front), Recordings(front);
      if last.Sent? && Replayable(last.recording) {
        ApplyOne(some, last.recording);
        ApplyOne(all, last.recording);
      } else if last.Sent? {
        ApplyOne(all, last.recording);
        assert some + [] == some;
      } else {
        assert some + [] == some && all + [] == all;
      }
    }
  }

  lemma ApplyOne(log: seq<DG.Recording>, r: DG.Recording)
    ensures DG.ApplyAll(log + [r]) == DG.Apply(DG.ApplyAll(log), r)
  {
    assert (log + [r])[..|log|] == log;
  }

  ghost predicate SameShape(x: Graph, y: Graph) {
    x.edges == y.edges && x.roots == y.roots && x.leaves == y.leaves && x.depth == y.depth
  }

  lemma {:induction false} SameWorkNodes(a: seq<DG.Node>, b: seq<DG.Node>, excluded: set<string>)
    requires |a| == |b| && forall i :: 0 <= i < |a| ==> Timeless(a[i]) == Timeless(b[i])
    ensures WorkIds(a, excluded) == WorkIds(b, excluded)
  {
    if a == [] {
    } else {
      var n := |a| - 1;
      SameWorkNodes(a[..n], b[..n], excluded);
      assert Timeless(a[n]) == Timeless(b[n]);
      assert a[n].messageId == b[n].messageId && a[n].kind == b[n].kind;
    }
  }

  /**
   When one history goes to both recorders in one order, as on the HTTP and import paths, and ids and needed parents
   are not empty, the rebuilt graph has the edges, roots, leaves and depth of the recorded one, in the same order,
   and the same nodes up to their times.
   */
  lemma SameHistoryRebuilds(history: seq<Occurrence>)
    requires AllReplayable(history)
    ensures var rebuilt, original := AppliedAll(EntriesOf(history)), DG.ApplyAll(Recordings(history));
            SameGraph(rebuilt, original) &&
            Elements(rebuilt.keys) == rebuilt.nodes.Keys && Elements(original.keys) == original.nodes.Keys &&
            SameShape(Finalize(rebuilt), Finalize(original))
  {
    RebuiltGraph(history);
    ReplayedMeansRecorded(history);
    KeysOfLog(Recordings(history));
    FinalizedSame(AppliedAll(EntriesOf(history)), DG.ApplyAll(Recordings(history)));
  }

  lemma {:induction false} KeysOfLog(log: seq<DG.Recording>)
    ensures var s := DG.ApplyAll(log); Distinct(s.keys) && Elements(s.keys) == s.nodes.Keys
    ensures forall id :: id in DG.ApplyAll(log).nodes <==> DG.HasMessage(log, id)
  {
    LogKeys(log);
    if log == [] {
    } else {
      var front, last := log[..|log| - 1], log[|log| - 1];
      KeysOfLog(front);
      forall id
        ensures DG.HasMessage(log, id) <==>
                DG.HasMessage(front, id) || (last.message.id == id && !last.message.CapabilityQuery?) {
        HasMessageGrows(front, last, id);
        assert front + [last] == log;
      }
    }
  }

  lemma HasMessageGrows(front: seq<DG.Recording>, last: DG.Recording, id: string)
    ensures DG.HasMessage(front + [last], id) <==>
              DG.HasMessage(front, id) || (last.message.id == id && !last.message.CapabilityQuery?)
  {
    forall m: Message
      ensures DG.Recorded(front + [last], m) <==>
              DG.Recorded(front, m) || (m == last.message && !m.CapabilityQuery?) {
      DG.RecordedGrows(front, last, m);
    }
  }

  /** A message survives a restart exactly when some recording of its id can be replayed. */
  lemma RebuiltNodes(history: seq<Occurrence>, id: string)
    ensures id in AppliedAll(EntriesOf(history)).nodes <==> DG.HasMessage(Replayed(history), id)
    ensures id in DG.ApplyAll(Recordings(history)).nodes <==> DG.HasMessage(Recordings(history), id)
  {
    RebuiltGraph(history);
    KeysOfLog(Replayed(history));
    KeysOfLog(Recordings(history));
  }

  lemma FinalizedSame(a: DG.State, b: DG.State)
    requires SameGraph(a, b) && Elements(a.keys) == a.nodes.Keys && Elements(b.keys) == b.nodes.Keys
    ensures SameShape(Finalize(a), Finalize(b))
  {
    forall i | 0 <= i < |a.keys| ensures Timeless(NodeList(a)[i]) == Timeless(NodeList(b)[i]) {
      assert a.keys[i] in Elements(a.keys);
    }
    var g := ParentEdges(a.edges);
    SameWorkNodes(NodeList(a), NodeList(b), Children(g));
    SameWorkNodes(NodeList(a), NodeList(b), Parents(g));
  }

  // ----- Two recorders that hear different things -----

  /** The same nodes up to their times. */
  ghost predicate SameNodesTimeless(a: DG.State, b: DG.State) {
    a.nodes.Keys == b.nodes.Keys && forall id :: id in a.nodes ==> Timeless(a.nodes[id]) == Timeless(b.nodes[id])
  }

  lemma SameIdInBoth(a: seq<DG.Recording>, b: seq<DG.Recording>, m: Message)
    requires DG.Coherent(a + b) && DG.Recorded(a, m) && DG.HasMessage(b, m.id)
    ensures DG.Recorded(b, m)
  {
    var r :| r in a && r.message == m;
    var n :| DG.Recorded(b, n) && n.id == m.id;
    var q :| q in b && q.message == n;
    assert r in a + b && q in a + b;
  }

  /** The parent a log names for a message is the one its node tells. */
  lemma NodeTellsParent(log: seq<DG.Recording>, nodes: map<string, DG.Node>, id: string)
    requires DG.Coherent(log) && DG.NodesDescribed(log, nodes)
    ensures forall p :: DG.Names(log, id, p) <==> id in nodes && nodes[id].parentMessageId == Some(p)
  {
    forall p | DG.Names(log, id, p) ensures id in nodes && nodes[id].parentMessageId == Some(p) {
      var r :| r in log && r.message.id == id && DG.ParentOf(r) == Some(p);
      assert DG.Recorded(log, r.message) && DG.IsNodeOf(log, r.message, nodes[id]);
      if nodes[id].parentMessageId.Some? {
        var q :| q in log && q.message.id == id && DG.ParentOf(q) == nodes[id].parentMessageId;
      }
    }
    forall p | id in nodes && nodes[id].parentMessageId == Some(p) ensures DG.Names(log, id, p) {
      assert DG.HasMessage(log, id);
      var m :| DG.Recorded(log, m) && m.id == id;
      assert DG.IsNodeOf(log, m, nodes[id]);
    }
  }

  /** Among coherent logs the nodes tell the content. */
  lemma NodesTellContent(a: seq<DG.Recording>, b: seq<DG.Recording>)
    requires DG.Coherent(a + b) && SameNodesTimeless(DG.ApplyAll(a), DG.ApplyAll(b))
    ensures DG.SameContent(a, b)
  {
    CoherentParts(a, b);
    DG.LogDescribesState(a);
    DG.LogDescribesState(b);
    var na, nb := DG.ApplyAll(a).nodes, DG.ApplyAll(b).nodes;
    assert DG.Coherent(b + a) by {
      assert forall r :: r in b + a ==> r in a + b;
    }
    forall m ensures DG.Recorded(a, m) <==> DG.Recorded(b, m) {
      assert m.id in na ==> DG.HasMessage(a, m.id);
      assert m.id in nb ==> DG.HasMessage(b, m.id);
      if DG.Recorded(a, m) {
        SameIdInBoth(a, b, m);
      } else if DG.Recorded(b, m) {
        SameIdInBoth(b, a, m);
      }
    }
    forall id, p ensures DG.Names(a, id, p) <==> DG.Names(b, id, p) {
      NodeTellsParent(a, na, id);
      NodeTellsParent(b, nb, id);
      assert id in na ==> Timeless(na[id]).parentMessageId == Timeless(nb[id]).parentMessageId;
    }
  }

  lemma CoherentParts(a: seq<DG.Recording>, b: seq<DG.Recording>)
    requires DG.Coherent(a + b)
    ensures DG.Coherent(a) && DG.Coherent(b)
  {
    assert forall r :: r in a ==> r in a + b;
    assert forall r :: r in b ==> r in a + b;
  }

  /** What rebuilding is to keep besides the nodes: edges up to agent labels, roots, leaves and depth. */
  ghost predicate SameHierarchy(a: DG.State, b: DG.State)
    requires Elements(a.keys) == a.nodes.Keys && Elements(b.keys) == b.nodes.Keys
  {
    DG.EdgeKeys(a.edges) == DG.EdgeKeys(b.edges) && |a.edges| == |b.edges| && SameOutcome(a, b)
  }

  lemma RebuiltKeys(history: seq<Occurrence>)
    ensures var s := AppliedAll(EntriesOf(history)); Elements(s.keys) == s.nodes.Keys
  {
    RebuiltGraph(history);
    KeysOfLog(Replayed(history));
  }

  /**
   The graph recorder and the memory recorder may hear different messages, in different orders. The graph rebuilt
   from memory has the recorded nodes, times aside, if and only if the replayable messages of the memory are those
   the graph recorder heard, with the same parents named; and then it has the same hierarchy.
   */
  lemma RebuildIsFaithful(log: seq<DG.Recording>, history: seq<Occurrence>)
    requires DG.Coherent(log + Replayed(history))
    ensures var s := AppliedAll(EntriesOf(history)); Elements(s.keys) == s.nodes.Keys
    ensures Elements(DG.ApplyAll(log).keys) == DG.ApplyAll(log).nodes.Keys
    ensures SameNodesTimeless(AppliedAll(EntriesOf(history)), DG.ApplyAll(log)) <==>
            DG.SameContent(log, Replayed(history))
    ensures DG.SameContent(log, Replayed(history)) ==> SameHierarchy(AppliedAll(EntriesOf(history)), DG.ApplyAll(log))
  {
    var replayed := Replayed(history);
    var rebuilt, original, between := AppliedAll(EntriesOf(history)), DG.ApplyAll(log), DG.ApplyAll(replayed);
    RebuiltGraph(history);
    RebuiltKeys(history);
    CoherentParts(log, replayed);
    KeysOfLog(log);
    if DG.SameContent(log, replayed) {
      DG.SameContentSameGraph(log, replayed);
      SameContentSameOutcome(log, replayed);
      FinalizedSame(rebuilt, between);
    }
    if SameNodesTimeless(rebuilt, original) {
      NodesTellContent(log, replayed);
    }
  }

  // ----- What the recorders hear of agent runtimes -----

  /**
   A runtime receives work, which goes to the graph recorder alone, or keeps an occurrence, which goes to the memory
   and to the graph recorder. A write that fails is swallowed: a kept occurrence may be missing from either.
   */
  datatype Event = Received(message: Message) | Kept(occurrence: Occurrence, inMemory: bool, inGraph: bool)

  predicate IsWork(m: Message) {
    m.TaskRequest? || m.Delegation?
  }

  function GraphLog(events: seq<Event>): seq<DG.Recording> {
    if events == [] then [] else
      GraphLog(events[..|events| - 1]) +
      match events[|events| - 1]
      case Received(m) => if IsWork(m) then [DG.Recording(m, None)] else []
      case Kept(o, _, inGraph) => if o.Sent? && inGraph then [o.recording] else []
  }

  function MemoryLog(events: seq<Event>): seq<Occurrence> {
    if events == [] then [] else
      var last := events[|events| - 1];
      MemoryLog(events[..|events| - 1]) + if last.Kept? && last.inMemory then [last.occurrence] else []
  }

  /** Some runtime kept this recording, and the graph recorder took it. */
  ghost predicate ToGraph(events: seq<Event>, r: DG.Recording) {
    exists e :: e in events && e.Kept? && e.inGraph && e.occurrence.Sent? && e.occurrence.recording == r
  }

  /** Some runtime kept this recording, and the memory took it. */
  ghost predicate ToMemory(events: seq<Event>, r: DG.Recording) {
    exists e :: e in events && e.Kept? && e.inMemory && e.occurrence.Sent? && e.occurrence.recording == r
  }

  lemma {:induction false} GraphLogMembers(events: seq<Event>, r: DG.Recording)
    ensures r in GraphLog(events) <==>
              ToGraph(events, r) || (Received(r.message) in events && IsWork(r.message) && r.parent.None?)
  {
    if events == [] {
    } else {
      var front, last := events[..|events| - 1], events[|events| - 1];
      GraphLogMembers(front, r);
      assert forall e :: e in events <==> e in front || e == last;
    }
  }

  lemma {:induction false} ReplayedMembers(events: seq<Event>, r: DG.Recording)
    ensures r in Replayed(MemoryLog(events)) <==> Replayable(r) && ToMemory(events, r)
  {
    if events == [] {
    } else {
      var front, last := events[..|events| - 1], events[|events| - 1];
      ReplayedMembers(front, r);
      assert forall e :: e in events <==> e in front || e == last;
      var memory := MemoryLog(front);
      if last.Kept? && last.inMemory {
        assert (memory + [last.occurrence])[..|memory|] == memory;
      } else {
        assert memory + [] == memory;
      }
    }
  }

  /** The memory took the message, with the id and the parent it needs. */
  ghost predicate Survives(events: seq<Event>, m: Message) {
    exists r :: ToMemory(events, r) && Replayable(r) && r.message == m
  }

  /** Whatever the recorders took, equal ids mean equal messages, and a request is under one parent. */
  ghost predicate CoherentRun(events: seq<Event>) {
    DG.Coherent(GraphLog(events) + Replayed(MemoryLog(events)))
  }

  lemma SurvivesMeansReplayed(events: seq<Event>)
    ensures forall r :: r in Replayed(MemoryLog(events)) <==> Replayable(r) && ToMemory(events, r)
    ensures forall m :: DG.Recorded(Replayed(MemoryLog(events)), m) <==> Survives(events, m)
  {
    forall r ensures r in Replayed(MemoryLog(events)) <==> Replayable(r) && ToMemory(events, r) {
      ReplayedMembers(events, r);
    }
  }

  /** Both recorders were told the same parents for requests. */
  ghost predicate SameRequestParents(events: seq<Event>) {
    forall r: DG.Recording {:trigger ToGraph(events, r)} {:trigger ToMemory(events, r)} ::
      r.message.TaskRequest? && r.parent.Some? ==> (ToGraph(events, r) <==> ToMemory(events, r) && Replayable(r))
  }

  /** A named parent is told by the message itself, or is the parent a request was recorded under. */
  lemma NamedThere(a: seq<DG.Recording>, b: seq<DG.Recording>, id: string, p: string)
    requires DG.Names(a, id, p) && forall m :: DG.Recorded(a, m) ==> DG.Recorded(b, m)
    requires forall r :: r in a && r.message.TaskRequest? && r.parent.Some? ==> r in b
    ensures DG.Names(b, id, p)
  {
    var r :| r in a && r.message.id == id && DG.ParentOf(r) == Some(p);
    if !r.message.TaskRequest? {
      assert DG.Recorded(a, r.message);
      var q :| q in b && q.message == r.message;
    }
  }

  /** The recording of a request under a parent is in every coherent log that names this parent. */
  lemma NamedRequest(a: seq<DG.Recording>, b: seq<DG.Recording>, r: DG.Recording)
    requires DG.Coherent(a + b) && r in a && r.message.TaskRequest? && r.parent.Some?
    requires DG.Names(b, r.message.id, r.parent.value)
    ensures r in b
  {
    var q :| q in b && q.message.id == r.message.id && DG.ParentOf(q) == r.parent;
    assert r in a + b && q in a + b;
    assert q == r;
  }

  lemma RuntimeContent(events: seq<Event>)
    requires CoherentRun(events)
    ensures DG.SameContent(GraphLog(events), Replayed(MemoryLog(events))) <==>
              (forall m :: DG.Recorded(GraphLog(events), m) <==> Survives(events, m)) && SameRequestParents(events)
  {
    var log, replayed := GraphLog(events), Replayed(MemoryLog(events));
    SurvivesMeansReplayed(events);
    forall r: DG.Recording | r.parent.Some? ensures r in log <==> ToGraph(events, r) {
      GraphLogMembers(events, r);
    }
    if DG.SameContent(log, replayed) {
      assert DG.Coherent(replayed + log) by {
        assert forall r :: r in replayed + log ==> r in log + replayed;
      }
      forall r: DG.Recording | r.message.TaskRequest? && r.parent.Some?
        ensures ToGraph(events, r) <==> ToMemory(events, r) && Replayable(r)
      {
        assert r in log ==> DG.Names(log, r.message.id, r.parent.value);
        assert r in replayed ==> DG.Names(replayed, r.message.id, r.parent.value);
        if r in log {
          NamedRequest(log, replayed, r);
        } else if r in replayed {
          NamedRequest(replayed, log, r);
        }
      }
    }
    if (forall m :: DG.Recorded(log, m) <==> Survives(events, m)) && SameRequestParents(events) {
      forall id, p ensures DG.Names(log, id, p) <==> DG.Names(replayed, id, p) {
        if DG.Names(log, id, p) {
          NamedThere(log, replayed, id, p);
        } else if DG.Names(replayed, id, p) {
          NamedThere(replayed, log, id, p);
        }
      }
    }
  }

  /** After a restart a message the graph recorder took is there again exactly when it survives. */
  lemma LostMessages(events: seq<Event>, m: Message)
    requires CoherentRun(events) && DG.Recorded(GraphLog(events), m)
    ensures m.id in DG.ApplyAll(GraphLog(events)).nodes
    ensures m.id in AppliedAll(EntriesOf(MemoryLog(events))).nodes <==> Survives(events, m)
  {
    var log, replayed := GraphLog(events), Replayed(MemoryLog(events));
    SurvivesMeansReplayed(events);
    RebuiltNodes(MemoryLog(events), m.id);
    KeysOfLog(log);
    if DG.HasMessage(replayed, m.id) {
      SameIdInBoth(log, replayed, m);
    }
  }

  /** Messages are lost: a request that a runtime received is in the graph and not in the rebuilt one. */
  lemma ReceivedIsLost() returns (events: seq<Event>, m: Message)
    ensures CoherentRun(events) && DG.Recorded(GraphLog(events), m)
    ensures m.id in DG.ApplyAll(GraphLog(events)).nodes && m.id !in AppliedAll(EntriesOf(MemoryLog(events))).nodes
  {
    m := TaskRequest("q", "t", "a", Some("b"), "work", "now");
    events := [Received(m)];
    assert events[..0] == [];
    assert GraphLog(events) == [DG.Recording(m, None)] && MemoryLog(events) == [];
    assert DG.Recording(m, None) in GraphLog(events);
    LostMessages(events, m);
  }

  /**
   Of any run of runtimes, whatever writes fail, the graph rebuilt from memory has the recorded nodes, times aside,
   if and only if the messages the graph recorder took are those that survive and both recorders were told the same
   parents for requests; and then it has the same hierarchy, whatever the order in which receivers, responders and
   senders recorded.
   */
  lemma RuntimeRebuild(events: seq<Event>)
    requires CoherentRun(events)
    ensures var s := AppliedAll(EntriesOf(MemoryLog(events))); Elements(s.keys) == s.nodes.Keys
    ensures var s := DG.ApplyAll(GraphLog(events)); Elements(s.keys) == s.nodes.Keys
    ensures SameNodesTimeless(AppliedAll(EntriesOf(MemoryLog(events))), DG.ApplyAll(GraphLog(events))) <==>
              (forall m :: DG.Recorded(GraphLog(events), m) <==> Survives(events, m)) && SameRequestParents(events)
    ensures SameNodesTimeless(AppliedAll(EntriesOf(MemoryLog(events))), DG.ApplyAll(GraphLog(events))) ==>
              SameHierarchy(AppliedAll(EntriesOf(MemoryLog(events))), DG.ApplyAll(GraphLog(events)))
  {
    RuntimeContent(events);
    RebuildIsFaithful(GraphLog(events), MemoryLog(events));
  }

  /** No write failed. */
  predicate AllWritten(events: seq<Event>) {
    forall e :: e in events && e.Kept? ==> e.inMemory && e.inGraph
  }

  lemma WrittenLogs(events: seq<Event>)
    requires AllWritten(events)
    ensures forall r :: ToGraph(events, r) <==> ToMemory(events, r)
    ensures DG.Coherent(GraphLog(events)) ==> CoherentRun(events)
  {
    forall r ensures r in Replayed(MemoryLog(events)) ==> r in GraphLog(events) {
      GraphLogMembers(events, r);
      ReplayedMembers(events, r);
    }
  }

  /** When no write fails, rebuilding keeps the graph if and only if every message of it survives. */
  lemma WrittenRebuild(events: seq<Event>)
    requires AllWritten(events) && DG.Coherent(GraphLog(events))
    ensures SameNodesTimeless(AppliedAll(EntriesOf(MemoryLog(events))), DG.ApplyAll(GraphLog(events))) <==>
              forall m :: DG.Recorded(GraphLog(events), m) ==> Survives(events, m)
  {
    WrittenLogs(events);
    RuntimeRebuild(events);
    SurvivesMeansReplayed(events);
    forall m | Survives(events, m) ensures DG.Recorded(GraphLog(events), m) {
      var r :| ToMemory(events, r) && Replayable(r) && r.message == m;
      GraphLogMembers(events, r);
    }
    if forall m :: DG.Recorded(GraphLog(events), m) ==> Survives(events, m) {
      forall r: DG.Recording | r.message.TaskRequest? && r.parent.Some?
        ensures ToGraph(events, r) <==> ToMemory(events, r) && Replayable(r)
      {
        GraphLogMembers(events, r);
        if ToGraph(events, r) {
          assert DG.Recorded(GraphLog(events), r.message);
        }
      }
    }
  }
}
