/** An agent runtime: its lifecycle and the waits for responses to the tasks it sent. */
module AgentRuntimes {
  import opened MessageBuses
  import opened Protocol
  import opened Wrappers
  import BusMail
  import Routing
  import TraceStore

  datatype SendResult = NotStarted | SendFailed(outcome: SendOutcome) | Dispatched(outcome: SendOutcome, waiting: bool)

  datatype Lifecycle = Created | Running | Stopped

  datatype Outcome = Reply(message: Message) | TimedOut

  /**
   Waits are numbered. `pending` maps a request id to the wait it would resolve and `timers` holds the live
   timers with the request id each would remove. The rest is history: the request of each wait, the
   calls that settled a wait, and the waits dropped without settling.
   */
  datatype Waits = Waits(pending: map<string, nat>, timers: map<nat, string>, next: nat,
                         requestOf: map<nat, string>, settled: seq<(nat, Outcome)>, abandoned: set<nat>)

  const NO_WAITS := Waits(map[], map[], 0, map[], [], {})

  /** Start waiting for the response to `id`. */
  function Open(w: Waits, id: string): Waits {
    Waits(w.pending[id := w.next], w.timers[w.next := id], w.next + 1, w.requestOf[w.next := id], w.settled,
          w.abandoned)
  }

  /** A response settles the wait its request id is mapped to, if any, and clears that timer. */
  function Resolve(w: Waits, m: Message): Waits
    requires m.TaskResponse?
  {
    if m.inReplyTo !in w.pending then w else
      var n := w.pending[m.inReplyTo];
      w.(pending := w.pending - {m.inReplyTo}, timers := w.timers - {n}, settled := w.settled + [(n, Reply(m))])
  }

  /** A live timer removes its request id and settles its own wait. */
  function Fire(w: Waits, n: nat): Waits {
    if n !in w.timers then w else
      w.(pending := w.pending - {w.timers[n]}, timers := w.timers - {n}, settled := w.settled + [(n, TimedOut)])
  }

  /** Forget one wait: neither its timer nor a response will settle it. */
  function Cancel(w: Waits, id: string): Waits {
    if id !in w.pending then w else
      w.(pending := w.pending - {id}, timers := w.timers - {w.pending[id]}, abandoned := w.abandoned + {w.pending[id]})
  }

  /** Forget all pending waits, as stopping does. */
  function Clear(w: Waits): Waits {
    w.(pending := map[], timers := w.timers - w.pending.Values, abandoned := w.abandoned + w.pending.Values)
  }

  function Settled(w: Waits): set<nat> {
    set i | 0 <= i < |w.settled| :: w.settled[i].0
  }

  /** No wait was settled twice. */
  ghost predicate SettledOnce(w: Waits) {
    forall i, j :: 0 <= i < j < |w.settled| ==> w.settled[i].0 != w.settled[j].0
  }

  /**
   Every wait ever started is live, settled or dropped, and only one of these; a reply names the request of
   the wait it settled; a pending request id leads to a live wait for that request.
   */
  ghost predicate WaitsOk(w: Waits) {
    (forall n: nat :: n in w.requestOf <==> n < w.next) &&
    (forall n: nat :: n < w.next <==> n in w.timers || n in Settled(w) || n in w.abandoned) &&
    (forall n :: n in w.timers ==> n !in Settled(w) && n !in w.abandoned && w.timers[n] == w.requestOf[n]) &&
    Settled(w) !! w.abandoned && SettledOnce(w) &&
    (forall id :: id in w.pending ==> w.pending[id] in w.timers && w.timers[w.pending[id]] == id) &&
    forall i :: 0 <= i < |w.settled| ==> AnswersItsRequest(w, i)
  }

  ghost predicate AnswersItsRequest(w: Waits, i: nat)
    requires i < |w.settled|
  {
    w.settled[i].1.Reply? ==>
      w.settled[i].1.message.TaskResponse? && w.settled[i].0 in w.requestOf &&
      w.settled[i].1.message.inReplyTo == w.requestOf[w.settled[i].0]
  }

  /** Every live timer belongs to the pending entry of its request id. */
  ghost predicate Unshadowed(w: Waits) {
    forall n :: n in w.timers ==> w.timers[n] in w.pending && w.pending[w.timers[n]] == n
  }

  lemma SettleOne(w: Waits, w': Waits, n: nat, o: Outcome)
    requires SettledOnce(w) && n !in Settled(w) && w'.settled == w.settled + [(n, o)]
    ensures SettledOnce(w') && Settled(w') == Settled(w) + {n}
  {
    forall i | 0 <= i < |w.settled| ensures w'.settled[i].0 != n {
      assert w.settled[i].0 in Settled(w);
    }
    forall x ensures x in Settled(w') <==> x in Settled(w) || x == n {
      if x in Settled(w) {
        var i :| 0 <= i < |w.settled| && w.settled[i].0 == x;
        assert w'.settled[i].0 == x;
      }
      assert w'.settled[|w.settled|].0 == n;
    }
  }

  lemma OpenOk(w: Waits, id: string)
    requires WaitsOk(w)
    ensures WaitsOk(Open(w, id))
    ensures Unshadowed(w) && id !in w.pending ==> Unshadowed(Open(w, id))
  {
    var w' := Open(w, id);
    assert Settled(w') == Settled(w);
    forall i | 0 <= i < |w'.settled| ensures AnswersItsRequest(w', i) {
      assert AnswersItsRequest(w, i) && w.settled[i].0 in Settled(w);
    }
  }

  lemma ResolveOk(w: Waits, m: Message)
    requires WaitsOk(w) && m.TaskResponse?
    ensures WaitsOk(Resolve(w, m))
    ensures Unshadowed(w) ==> Unshadowed(Resolve(w, m))
  {
    var w' := Resolve(w, m);
    if m.inReplyTo in w.pending {
      var n := w.pending[m.inReplyTo];
      SettleOne(w, w', n, Reply(m));
      forall i | 0 <= i < |w'.settled| ensures AnswersItsRequest(w', i) {
        assert i < |w.settled| ==> AnswersItsRequest(w, i);
      }
    }
  }

  lemma FireOk(w: Waits, n: nat)
    requires WaitsOk(w)
    ensures WaitsOk(Fire(w, n))
    ensures Unshadowed(w) ==> Unshadowed(Fire(w, n))
  {
    var w' := Fire(w, n);
    if n in w.timers {
      SettleOne(w, w', n, TimedOut);
      forall i | 0 <= i < |w'.settled| ensures AnswersItsRequest(w', i) {
        assert i < |w.settled| ==> AnswersItsRequest(w, i);
      }
    }
  }

  lemma CancelOk(w: Waits, id: string)
    requires WaitsOk(w)
    ensures WaitsOk(Cancel(w, id))
    ensures Unshadowed(w) ==> Unshadowed(Cancel(w, id))
  {
    var w' := Cancel(w, id);
    assert Settled(w') == Settled(w);
    forall i | 0 <= i < |w'.settled| ensures AnswersItsRequest(w', i) {
      assert AnswersItsRequest(w, i);
    }
  }

  lemma ClearOk(w: Waits)
    requires WaitsOk(w)
    ensures WaitsOk(Clear(w)) && Clear(w).pending == map[]
    ensures Unshadowed(w) ==> Clear(w).timers == map[]
  {
    var w' := Clear(w);
    assert Settled(w') == Settled(w);
    forall n | n in w.pending.Values ensures n in w.timers {
      var id :| id in w.pending && w.pending[id] == n;
    }
    forall i | 0 <= i < |w'.settled| ensures AnswersItsRequest(w', i) {
      assert AnswersItsRequest(w, i);
    }
  }

  /** A failed send leaves timers as they were, and pending requests too unless the id was pending already. */
  lemma FailedSendUndoesOpen(w: Waits, id: string)
    requires WaitsOk(w)
    ensures var w' := Cancel(Open(w, id), id);
            w'.timers == w.timers && w'.settled == w.settled && w'.abandoned == w.abandoned + {w.next} &&
            (w'.pending == w.pending <==> id !in w.pending)
  {
    var w' := Cancel(Open(w, id), id);
    assert id !in w'.pending;
  }

  class AgentRuntime {
    const id: string
    const capabilities: set<string>
    const useMailbox: bool
    const bus: MessageBus
    var state: Lifecycle
    var pendingResponses: map<string, nat>
    var timers: map<nat, string>
    var nextWait: nat
    ghost var requestOf: map<nat, string>
    ghost var settled: seq<(nat, Outcome)>
    ghost var abandoned: set<nat>

    ghost function View(): Waits
      reads this
    {
      Waits(pendingResponses, timers, nextWait, requestOf, settled, abandoned)
    }

    constructor (id: string, capabilities: set<string>, useMailbox: bool, bus: MessageBus)
      ensures state == Created && View() == NO_WAITS && WaitsOk(View()) && this.bus == bus && this.id == id
    {
      this.id, this.capabilities, this.useMailbox, this.bus := id, capabilities, useMailbox, bus;
      state := Created;
      pendingResponses, timers, nextWait := map[], map[], 0;
      requestOf, settled, abandoned := map[], [], {};
    }

    /** Only a created runtime can start; it registers with a handler, keeping what is registered already. */
    method Start() returns (ok: bool)
      requires bus.Valid()
      modifies this`state, bus`agents, bus`index
      ensures bus.Valid() && ok == (old(state) == Created)
      ensures state == (if ok then Running else old(state))
      ensures ok ==> id in bus.agents && bus.agents[id].capabilities == capabilities && bus.agents[id].hasHandler
      ensures !ok ==> bus.agents == old(bus.agents)
    {
      if state != Created {
        return false;
      }
      bus.Register(id, true, Some(capabilities), useMailbox, false);
      state := Running;
      ok := true;
    }

    /** Leave the bus and forget every pending wait: none of them will be settled. */
    method Stop() returns (ok: bool)
      requires bus.Valid()
      modifies this, bus`agents, bus`index
      ensures bus.Valid() && ok == (old(state) != Created)
      ensures state == (if old(state) == Running then Stopped else old(state))
      ensures old(state) == Running ==> id !in bus.agents && View() == Clear(old(View()))
      ensures old(state) != Running ==> bus.agents == old(bus.agents) && View() == old(View())
    {
      if state == Stopped {
        return true;
      }
      if state != Running {
        return false;
      }
      var removed := bus.Unregister(id);
      ClearPendingResponses();
      state := Stopped;
      ok := true;
    }

    method CreateResponsePromise(messageId: string) returns (wait: nat)
      modifies this
      ensures wait == old(nextWait) && View() == Open(old(View()), messageId) && state == old(state)
    {
      wait := nextWait;
      nextWait := nextWait + 1;
      timers := timers[wait := messageId];
      pendingResponses := pendingResponses[messageId := wait];
      requestOf := requestOf[wait := messageId];
    }

    method ResolvePendingResponse(response: Message)
      requires response.TaskResponse?
      modifies this
      ensures View() == Resolve(old(View()), response) && state == old(state)
    {
      if response.inReplyTo !in pendingResponses {
        return;
      }
      var wait := pendingResponses[response.inReplyTo];
      timers := timers - {wait};
      settled := settled + [(wait, Reply(response))];
      pendingResponses := pendingResponses - {response.inReplyTo};
    }

    /** The timer callback of a wait; a cleared timer never calls it. */
    method OnTimer(wait: nat)
      modifies this
      ensures View() == Fire(old(View()), wait) && state == old(state)
    {
      if wait !in timers {
        return;
      }
      pendingResponses := pendingResponses - {timers[wait]};
      timers := timers - {wait};
      settled := settled + [(wait, TimedOut)];
    }

    method CancelResponseWait(messageId: string)
      modifies this
      ensures View() == Cancel(old(View()), messageId) && state == old(state)
    {
      if messageId in pendingResponses {
        var wait := pendingResponses[messageId];
        timers := timers - {wait};
        pendingResponses := pendingResponses - {messageId};
        abandoned := abandoned + {wait};
      }
    }

    method ClearPendingResponses()
      modifies this
      ensures View() == Clear(old(View())) && state == old(state)
    {
      var rest := pendingResponses.Keys;
      ghost var cleared: set<nat> := {};
      while rest != {}
        invariant rest <= pendingResponses.Keys && state == old(state)
        invariant cleared ==
                    set messageId | messageId in pendingResponses && messageId !in rest :: pendingResponses[messageId]
        invariant View() == old(View()).(timers := old(timers) - cleared)
        decreases rest
      {
        var messageId :| messageId in rest;
        cleared := cleared + {pendingResponses[messageId]};
        timers := timers - {pendingResponses[messageId]};
        rest := rest - {messageId};
      }
      assert cleared == pendingResponses.Values;
      abandoned := abandoned + cleared;
      pendingResponses := map[];
    }

    /** What the runtime does with a delivered message, apart from calling a handler: a response settles its wait. */
    method HandleIncoming(m: Message)
      modifies this
      ensures View() == (if m.TaskResponse? then Resolve(old(View()), m) else old(View())) && state == old(state)
    {
      if m.TaskResponse? {
        ResolvePendingResponse(m);
      }
    }

    /** Open the wait before sending, and drop it when the send fails. */
    method SendTask(request: Message, waitForResponse: bool) returns (r: SendResult)
      requires bus.Valid() && request.TaskRequest? && request.sender == id
      modifies this, bus.store, bus.Boxes()
      ensures bus.Valid() && state == old(state)
      ensures r.NotStarted? <==> state != Running
      ensures r.NotStarted? ==> View() == old(View())
      ensures bus.store.View() ==
                if !r.NotStarted? && bus.open then TraceStore.RecordIn(old(bus.store.View()), request)
                else old(bus.store.View())
      ensures !r.NotStarted? ==> (r.outcome.BusClosed? <==> !bus.open) && (r.SendFailed? <==> !r.outcome.Sent?)
      ensures r.Dispatched? ==>
                Routing.RouteOk(bus.le, bus.mode, bus.registry, CapabilitiesOf(bus.agents), bus.store.index, request,
                                Routing.Recipients(r.outcome.recipients))
      ensures MailsOf(bus.agents) ==
                if r.Dispatched? then BusMail.Delivered(old(MailsOf(bus.agents)), r.outcome.recipients, request)
                else old(MailsOf(bus.agents))
      ensures r.SendFailed? ==>
                View() == if waitForResponse then Cancel(Open(old(View()), request.id), request.id) else old(View())
      ensures r.Dispatched? ==> r.waiting == waitForResponse
      ensures r.Dispatched? ==> View() == if waitForResponse then Open(old(View()), request.id) else old(View())
    {
      if state != Running {
        return NotStarted;
      }
      if waitForResponse {
        var wait := CreateResponsePromise(request.id);
      }
      MailsKept(bus.agents);
      var outcome := bus.Send(request);
      if !outcome.Sent? {
        if waitForResponse {
          label failed:
          CancelResponseWait(request.id);
          MailsKept@failed(bus.agents);
        }
        return SendFailed(outcome);
      }
      r := Dispatched(outcome, waitForResponse);
    }
  }
}
