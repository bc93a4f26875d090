/** What any list of recordings, coherent or not, makes of nodes and edges, field by field. */
module RecordedGraph {
  import opened DelegationGraph
  import opened Graphs
  import opened Protocol
  import opened Wrappers

  // ----- Nodes -----

  /** The recording is the first of its message. */
  ghost predicate FirstOfMessage(log: seq<Recording>, j: nat)
    requires j < |log|
  {
    !log[j].message.CapabilityQuery? &&
    forall i :: 0 <= i < j && log[i].message.id == log[j].message.id ==> log[i].message.CapabilityQuery?
  }

  /** The nodes stand for the first recordings of the messages, at the positions `idx`, in order. */
  ghost predicate InOrderRecorded(log: seq<Recording>, keys: seq<string>, idx: seq<nat>) {
    |idx| == |keys| && (forall i, j :: 0 <= i < j < |idx| ==> idx[i] < idx[j]) &&
    (forall i :: 0 <= i < |idx| ==> idx[i] < |log| && keys[i] == log[idx[i]].message.id) &&
    forall j: nat :: j < |log| ==> (j in idx <==> FirstOfMessage(log, j))
  }

  /** Nodes stand in the order in which their messages were first recorded. */
  lemma {:induction false} NodeOrder(log: seq<Recording>) returns (idx: seq<nat>)
    ensures InOrderRecorded(log, ApplyAll(log).keys, idx)
  {
    if log == [] {
      idx := [];
    } else {
      var front, last := log[..|log| - 1], log[|log| - 1];
      assert log == front + [last];
      var before := NodeOrder(front);
      idx := OrderMore(front, before, last);
    }
  }

  lemma OrderMore(log: seq<Recording>, idx: seq<nat>, last: Recording) returns (more: seq<nat>)
    requires InOrderRecorded(log, ApplyAll(log).keys, idx)
    ensures InOrderRecorded(log + [last], ApplyAll(log + [last]).keys, more)
  {
    KeysAreNodes(log);
    KnownMeansRecorded(log, idx, last.message.id);
    KeysAfter(log, last);
    OrderGrows(log, ApplyAll(log).keys, idx, last);
    more := if FirstOfMessage(log + [last], |log|) then idx + [|log|] else idx;
  }

  lemma KeysAfter(log: seq<Recording>, last: Recording)
    ensures var s := ApplyAll(log);
            ApplyAll(log + [last]).keys ==
              s.keys + if last.message.CapabilityQuery? || last.message.id in s.nodes then [] else [last.message.id]
  {
    assert (log + [last])[..|log|] == log;
  }

  lemma OrderGrows(log: seq<Recording>, keys: seq<string>, idx: seq<nat>, last: Recording)
    requires InOrderRecorded(log, keys, idx)
    ensures if FirstOfMessage(log + [last], |log|)
            then InOrderRecorded(log + [last], keys + [last.message.id], idx + [|log|])
            else InOrderRecorded(log + [last], keys, idx)
  {
    assert forall j :: j in idx ==> j < |log|;
    var longer := log + [last];
    forall j: nat | j < |log| ensures FirstOfMessage(longer, j) <==> FirstOfMessage(log, j) {
      assert longer[j] == log[j] && forall i :: 0 <= i < j ==> longer[i] == log[i];
    }
  }

  lemma KnownMeansRecorded(log: seq<Recording>, idx: seq<nat>, id: string)
    requires InOrderRecorded(log, ApplyAll(log).keys, idx)
    requires Elements(ApplyAll(log).keys) == ApplyAll(log).nodes.Keys
    ensures id in ApplyAll(log).nodes <==>
              exists j: nat :: j < |log| && log[j].message.id == id && !log[j].message.CapabilityQuery?
  {
    var keys := ApplyAll(log).keys;
    if id in ApplyAll(log).nodes {
      assert id in Elements(keys);
      var i :| 0 <= i < |keys| && keys[i] == id;
      assert idx[i] in idx && FirstOfMessage(log, idx[i]);
    }
    if j: nat :| j < |log| && log[j].message.id == id && !log[j].message.CapabilityQuery? {
      var f := FirstRecording(log, id, j);
      assert f in idx;
      var i :| 0 <= i < |idx| && idx[i] == f;
      assert keys[i] == id && keys[i] in Elements(keys);
    }
  }

  lemma {:induction false} FirstRecording(log: seq<Recording>, id: string, j: nat) returns (f: nat)
    requires j < |log| && log[j].message.id == id && !log[j].message.CapabilityQuery?
    ensures f <= j && log[f].message.id == id && FirstOfMessage(log, f)
    decreases j
  {
    if FirstOfMessage(log, j) {
      f := j;
    } else {
      var i: nat :| i < j && log[i].message.id == id && !log[i].message.CapabilityQuery?;
      f := FirstRecording(log, id, i);
    }
  }

  lemma {:induction false} KeysAreNodes(log: seq<Recording>)
    ensures var s := ApplyAll(log); Distinct(s.keys) && Elements(s.keys) == s.nodes.Keys
  {
    if log == [] {
    } else {
      KeysAreNodes(log[..|log| - 1]);
      KeysStep(log[|log| - 1], ApplyAll(log[..|log| - 1]));
    }
  }

  /** Recording `j` is the last of its message. */
  ghost predicate LastOfMessage(log: seq<Recording>, j: nat)
    requires j < |log|
  {
    !log[j].message.CapabilityQuery? &&
    forall i :: j < i < |log| && log[i].message.id == log[j].message.id ==> log[i].message.CapabilityQuery?
  }

  ghost predicate IsKind(m: Message, kind: NodeKind) {
    (m.TaskRequest? && kind == RequestNode) || (m.Delegation? && kind == DelegationNode) ||
    (m.TaskResponse? && kind == ResponseNode)
  }

  lemma ApplyOne(log: seq<Recording>, last: Recording)
    ensures ApplyAll(log + [last]) == Apply(ApplyAll(log), last)
  {
    assert (log + [last])[..|log|] == log;
  }

  /** Whatever is recorded later under its id, a node keeps the trace and the agent of the first recording. */
  lemma {:induction false} NodeKeepsFirst(log: seq<Recording>, j: nat)
    requires j < |log| && FirstOfMessage(log, j)
    ensures var m, nodes := log[j].message, ApplyAll(log).nodes;
            m.id in nodes && nodes[m.id].messageId == m.id && nodes[m.id].traceId == m.traceId &&
            nodes[m.id].agentId == m.sender
  {
    var n := |log| - 1;
    var front, last := log[..n], log[n];
    assert log == front + [last];
    ApplyOne(front, last);
    if j < n {
      assert FirstOfMessage(front, j);
      NodeKeepsFirst(front, j);
    } else {
      var idx := NodeOrder(front);
      KeysAreNodes(front);
      KnownMeansRecorded(front, idx, last.message.id);
    }
  }

  /** And it has the kind of the last. */
  lemma {:induction false} NodeTakesLast(log: seq<Recording>, j: nat)
    requires j < |log| && LastOfMessage(log, j)
    ensures log[j].message.id in ApplyAll(log).nodes
    ensures IsKind(log[j].message, ApplyAll(log).nodes[log[j].message.id].kind)
  {
    var n := |log| - 1;
    var front, last := log[..n], log[n];
    assert log == front + [last];
    ApplyOne(front, last);
    if j < n {
      assert LastOfMessage(front, j);
      NodeTakesLast(front, j);
    }
  }

  /** What a message tells of its node. */
  ghost predicate TellsNode(m: Message, node: Node) {
    node.messageId == m.id && node.traceId == m.traceId && node.agentId == m.sender && IsKind(m, node.kind) &&
    match m
    case TaskRequest(_, _, _, to, capability, time) =>
      node.capability == Some(capability) && node.to == to && node.status == None && node.timestamp == Some(time)
    case Delegation(_, _, _, to, capability, time, _) =>
      node.capability == Some(capability) && node.to == to && node.status == None && node.timestamp == Some(time)
    case TaskResponse(_, _, _, _, status, time) =>
      node.capability == None && node.to == None && node.status == Some(status) && node.timestamp == Some(time)
    case CapabilityQuery(_, _, _, _) => false
  }

  /** The recording puts its message under `p`. */
  ghost predicate PutsUnder(r: Recording, p: string) {
    (r.message.TaskRequest? && r.parent == Some(p)) || (r.message.Delegation? && r.message.parentId == p) ||
    (r.message.TaskResponse? && r.message.inReplyTo == p)
  }

  lemma PutsUnderParent(r: Recording, p: string)
    ensures PutsUnder(r, p) <==> ParentOf(r) == Some(p)
  {
  }

  /** In a coherent log every recorded message has its node, field by field, under the parent some recording tells. */
  lemma NodeOfMessage(log: seq<Recording>, r: Recording)
    requires Coherent(log) && r in log && !r.message.CapabilityQuery?
    ensures r.message.id in ApplyAll(log).nodes
    ensures var node := ApplyAll(log).nodes[r.message.id];
            TellsNode(r.message, node) &&
            forall p :: node.parentMessageId == Some(p) <==>
                        exists q :: q in log && q.message.id == r.message.id && PutsUnder(q, p)
  {
    LogDescribesState(log);
    var m, node := r.message, ApplyAll(log).nodes[r.message.id];
    assert Recorded(log, m) && IsNodeOf(log, m, node);
    forall p
      ensures node.parentMessageId == Some(p) <==>
              exists q :: q in log && q.message.id == m.id && PutsUnder(q, p)
    {
      if node.parentMessageId == Some(p) {
        assert Names(log, m.id, p);
        var q :| q in log && q.message.id == m.id && ParentOf(q) == Some(p);
        PutsUnderParent(q, p);
      }
      if q :| q in log && q.message.id == m.id && PutsUnder(q, p) {
        PutsUnderParent(q, p);
        assert Names(log, m.id, p);
        if node.parentMessageId.Some? {
          var x :| x in log && x.message.id == m.id && ParentOf(x) == node.parentMessageId;
        }
      }
    }
  }

  // ----- Edges -----

  ghost predicate IsEdgeKind(m: Message, kind: EdgeKind) {
    (m.TaskRequest? && kind == Subtask) || (m.Delegation? && kind == Delegates) ||
    (m.TaskResponse? && kind == RespondsTo)
  }

  /** The recording asks for an edge between these ends. */
  ghost predicate AsksFor(r: Recording, source: string, target: string, kind: EdgeKind) {
    PutsUnder(r, source) && r.message.id == target && IsEdgeKind(r.message, kind)
  }

  /** What the recording tells of its edge, apart from the agent at its source. */
  ghost predicate TellsEdge(r: Recording, e: Edge) {
    AsksFor(r, e.source, e.target, e.kind) && e.traceId == r.message.traceId &&
    match r.message
    case TaskRequest(_, _, _, to, capability, _) => e.toAgent == to && e.capability == Some(capability)
    case Delegation(_, _, _, to, capability, _, _) => e.toAgent == to && e.capability == Some(capability)
    case TaskResponse(_, _, sender, _, _, _) => e.toAgent == Some(sender) && e.capability == None
    case CapabilityQuery(_, _, _, _) => false
  }

  /** The agent at the source: the sender of the parent as recorded up to `j`, or else of the message itself. */
  ghost predicate IsSourceAgent(log: seq<Recording>, j: nat, source: string, agent: string)
    requires j < |log|
  {
    (forall i: nat :: i <= j && log[i].message.id == source && FirstOfMessage(log, i) ==>
      agent == log[i].message.sender) &&
    ((forall i: nat :: i <= j && log[i].message.id == source ==> log[i].message.CapabilityQuery?) ==>
      agent == log[j].message.sender)
  }

  /** Recording `j` is the first to ask for the edge `e`, and `e` is what it tells. */
  ghost predicate EdgeFrom(log: seq<Recording>, j: nat, e: Edge)
    requires j < |log|
  {
    TellsEdge(log[j], e) && IsSourceAgent(log, j, e.source, e.fromAgent) &&
    forall i :: 0 <= i < j ==> !AsksFor(log[i], e.source, e.target, e.kind)
  }

  lemma EdgeFromStays(log: seq<Recording>, last: Recording, j: nat, e: Edge)
    requires j < |log| && EdgeFrom(log, j, e)
    ensures EdgeFrom(log + [last], j, e)
  {
    var longer := log + [last];
    assert forall i :: 0 <= i < |log| ==> longer[i] == log[i];
    forall i: nat | i <= j ensures FirstOfMessage(longer, i) <==> FirstOfMessage(log, i) {
    }
  }

  /** Recording `j` asks for an edge no earlier recording asked for. */
  ghost predicate AsksFirst(log: seq<Recording>, j: nat)
    requires j < |log|
  {
    exists source, kind :: AsksFor(log[j], source, log[j].message.id, kind) &&
      forall i :: 0 <= i < j ==> !AsksFor(log[i], source, log[j].message.id, kind)
  }

  /** The edges stand for the first requests for them, at the positions `idx`, in order. */
  ghost predicate EdgesRecorded(log: seq<Recording>, edges: seq<Edge>, idx: seq<nat>) {
    |idx| == |edges| && (forall i, j :: 0 <= i < j < |idx| ==> idx[i] < idx[j]) &&
    (forall i :: 0 <= i < |idx| ==> idx[i] < |log| && EdgeFrom(log, idx[i], edges[i])) &&
    forall j: nat :: j < |log| ==> (j in idx <==> AsksFirst(log, j))
  }

  /**
   The edges of any log: one for each recording that asks for an edge nobody asked for before, in that order, with
   the fields this recording tells and the agent of the parent as known then.
   */
  lemma {:induction false} EdgeOrder(log: seq<Recording>) returns (idx: seq<nat>)
    ensures EdgesRecorded(log, ApplyAll(log).edges, idx)
  {
    if log == [] {
      idx := [];
    } else {
      var front, last := log[..|log| - 1], log[|log| - 1];
      assert log == front + [last];
      var before := EdgeOrder(front);
      idx := EdgeOrderMore(front, before, last);
    }
  }

  /** An edge with these ends is there exactly when some recording asked for it. */
  lemma {:induction false} EdgeIsAsked(log: seq<Recording>, idx: seq<nat>, source: string, target: string,
                                       kind: EdgeKind)
    requires EdgesRecorded(log, ApplyAll(log).edges, idx)
    ensures (source, target, kind) in EdgeKeys(ApplyAll(log).edges) <==>
              exists i :: 0 <= i < |log| && AsksFor(log[i], source, target, kind)
  {
    var edges := ApplyAll(log).edges;
    if (source, target, kind) in EdgeKeys(edges) {
      var e :| e in edges && EdgeKey(e) == (source, target, kind);
      var i :| 0 <= i < |edges| && edges[i] == e;
      assert EdgeFrom(log, idx[i], e);
    }
    if i: nat :| i < |log| && AsksFor(log[i], source, target, kind) {
      var f := FirstAsking(log, i, source, target, kind);
      assert AsksFirst(log, f) && f in idx;
      var k :| 0 <= k < |idx| && idx[k] == f;
      assert EdgeFrom(log, f, edges[k]);
      SameKey(log[f], source, kind, edges[k].source, edges[k].kind);
      assert edges[k] in edges && EdgeKey(edges[k]) == (source, target, kind);
    }
  }

  lemma SameKey(r: Recording, source: string, kind: EdgeKind, other: string, otherKind: EdgeKind)
    requires AsksFor(r, source, r.message.id, kind) && AsksFor(r, other, r.message.id, otherKind)
    ensures source == other && kind == otherKind
  {
  }

  lemma {:induction false} FirstAsking(log: seq<Recording>, i: nat, source: string, target: string, kind: EdgeKind)
    returns (f: nat)
    requires i < |log| && AsksFor(log[i], source, target, kind)
    ensures f <= i && AsksFor(log[f], source, target, kind)
    ensures forall k :: 0 <= k < f ==> !AsksFor(log[k], source, target, kind)
    decreases i
  {
    if forall k :: 0 <= k < i ==> !AsksFor(log[k], source, target, kind) {
      f := i;
    } else {
      var k: nat :| k < i && AsksFor(log[k], source, target, kind);
      f := FirstAsking(log, k, source, target, kind);
    }
  }

  lemma EdgeOrderMore(log: seq<Recording>, idx: seq<nat>, last: Recording) returns (more: seq<nat>)
    requires EdgesRecorded(log, ApplyAll(log).edges, idx)
    ensures EdgesRecorded(log + [last], ApplyAll(log + [last]).edges, more)
  {
    var longer, edges := log + [last], ApplyAll(log).edges;
    ApplyOne(log, last);
    AsksStay(log, last);
    KeepEdges(log, edges, idx, last);
    more := idx;
    if !last.message.CapabilityQuery? && ParentOf(last).Some? {
      var p := ParentOf(last).value;
      var noded := Upsert(ApplyAll(log), NodeOf(last.message, ParentOf(last)));
      var e := EdgeOf(noded, last.message, p);
      PutsUnderParent(last, p);
      EdgeIsAsked(log, idx, p, last.message.id, e.kind);
      AsksHere(log, last, p, e.kind);
      if EdgeKey(e) !in EdgeKeys(edges) {
        NewEdgeFrom(log, last, e);
        more := idx + [|log|];
      }
    } else {
      AsksNothing(log, last);
    }
  }

  lemma AsksStay(log: seq<Recording>, last: Recording)
    ensures forall j: nat :: j < |log| ==> (AsksFirst(log + [last], j) <==> AsksFirst(log, j))
  {
    var longer := log + [last];
    forall j: nat | j < |log| ensures AsksFirst(longer, j) <==> AsksFirst(log, j) {
      assert longer[j] == log[j] && forall i :: 0 <= i < j ==> longer[i] == log[i];
    }
  }

  lemma KeepEdges(log: seq<Recording>, edges: seq<Edge>, idx: seq<nat>, last: Recording)
    requires EdgesRecorded(log, edges, idx)
    ensures forall i :: 0 <= i < |idx| ==> idx[i] < |log| && EdgeFrom(log + [last], idx[i], edges[i])
    ensures forall j :: j in idx ==> j < |log|
  {
    forall i | 0 <= i < |idx| ensures EdgeFrom(log + [last], idx[i], edges[i]) {
      EdgeFromStays(log, last, idx[i], edges[i]);
    }
  }

  lemma AsksHere(log: seq<Recording>, last: Recording, p: string, kind: EdgeKind)
    requires AsksFor(last, p, last.message.id, kind)
    ensures AsksFirst(log + [last], |log|) <==>
              !exists i :: 0 <= i < |log| && AsksFor(log[i], p, last.message.id, kind)
  {
    var longer := log + [last];
    assert forall i :: 0 <= i < |log| ==> longer[i] == log[i];
    if AsksFirst(longer, |log|) {
      var source, k :| AsksFor(last, source, last.message.id, k) &&
        forall i :: 0 <= i < |log| ==> !AsksFor(longer[i], source, last.message.id, k);
      SameKey(last, p, kind, source, k);
      forall i | 0 <= i < |log| ensures !AsksFor(log[i], p, last.message.id, kind) {
        assert longer[i] == log[i];
      }
    }
    if !exists i :: 0 <= i < |log| && AsksFor(log[i], p, last.message.id, kind) {
      assert longer[|log|] == last;
      assert AsksFor(longer[|log|], p, longer[|log|].message.id, kind) &&
             forall i :: 0 <= i < |log| ==> !AsksFor(longer[i], p, longer[|log|].message.id, kind);
    }
  }

  lemma AsksNothing(log: seq<Recording>, last: Recording)
    requires last.message.CapabilityQuery? || ParentOf(last).None?
    ensures !AsksFirst(log + [last], |log|)
  {
    forall source ensures !PutsUnder(last, source) {
      PutsUnderParent(last, source);
    }
  }

  /** The agent found for a source once recording `last` has its node. */
  lemma AgentFound(log: seq<Recording>, last: Recording, source: string)
    requires !last.message.CapabilityQuery?
    ensures IsSourceAgent(log + [last], |log|, source,
                          AgentFor(Upsert(ApplyAll(log), NodeOf(last.message, ParentOf(last))), source,
                                   last.message.sender))
  {
    var longer := log + [last];
    ApplyOne(log, last);
    var nodes := ApplyAll(longer).nodes;
    assert Upsert(ApplyAll(log), NodeOf(last.message, ParentOf(last))).nodes == nodes;
    forall i: nat | i <= |log| && longer[i].message.id == source && FirstOfMessage(longer, i)
      ensures source in nodes && nodes[source].agentId == longer[i].message.sender
    {
      NodeKeepsFirst(longer, i);
    }
    if source in nodes {
      RecordedSource(longer, source);
    }
  }

  lemma RecordedSource(log: seq<Recording>, source: string)
    requires source in ApplyAll(log).nodes
    ensures exists j: nat :: j < |log| && log[j].message.id == source && !log[j].message.CapabilityQuery?
  {
    var idx := NodeOrder(log);
    KeysAreNodes(log);
    KnownMeansRecorded(log, idx, source);
  }

  lemma NewEdgeFrom(log: seq<Recording>, last: Recording, e: Edge)
    requires !last.message.CapabilityQuery? && ParentOf(last).Some?
    requires e == EdgeOf(Upsert(ApplyAll(log), NodeOf(last.message, ParentOf(last))), last.message,
                         ParentOf(last).value)
    requires forall i :: 0 <= i < |log| ==> !AsksFor(log[i], e.source, e.target, e.kind)
    ensures EdgeFrom(log + [last], |log|, e)
  {
    var longer := log + [last];
    PutsUnderParent(last, e.source);
    AgentFound(log, last, e.source);
    assert longer[|log|] == last && TellsEdge(last, e);
    assert forall i :: 0 <= i < |log| ==> longer[i] == log[i];
  }
}
