/** The in-process bus: registrations, their capability index, mailboxes and delivery. */
module MessageBuses {
  import opened BusMail
  import opened Graphs
  import opened Mailboxes
  import opened Protocol
  import opened Routing
  import opened TraceStore
  import opened Wrappers

  datatype Registration = Registration(capabilities: set<string>, hasHandler: bool, mailbox: Mailbox?)

  datatype SendOutcome =
    | BusClosed
    | Unroutable(route: Route)
    | DeliveryFailed
    | Sent(recipients: seq<string>, delivered: seq<bool>)

  ghost function CapabilitiesOf(agents: map<string, Registration>): Capabilities {
    map a | a in agents :: agents[a].capabilities
  }

  lemma CapabilitiesUpdate(agents: map<string, Registration>, agent: string, r: Registration)
    ensures CapabilitiesOf(agents[agent := r]) == CapabilitiesOf(agents)[agent := r.capabilities]
  {
  }

  function BoxesOf(agents: map<string, Registration>): set<Mailbox> {
    set a | a in agents && agents[a].mailbox != null :: agents[a].mailbox
  }

  /** The mailboxes by agent, as values. */
  ghost function MailsOf(agents: map<string, Registration>): Mails
    reads BoxesOf(agents)
  {
    map a | a in agents :: if agents[a].mailbox == null then None else Some(agents[a].mailbox.View())
  }

  /** Registering one agent touches no other mailbox and keeps or makes its own. */
  twostate lemma MailsRegistered(before: map<string, Registration>, new after: map<string, Registration>,
                                 new agent: string, new useMailbox: bool, new replace: bool)
    requires forall a :: a in before && before[a].mailbox != null ==>
               before[a].mailbox.View() == old(before[a].mailbox.View())
    requires after.Keys == before.Keys + {agent} && forall a :: a in before && a != agent ==> after[a] == before[a]
    requires if agent in before && !replace && before[agent].mailbox != null
             then after[agent].mailbox == before[agent].mailbox
             else if useMailbox then after[agent].mailbox != null && after[agent].mailbox.View() == EMPTY_MAIL
             else after[agent].mailbox == null
    ensures MailsOf(after) == Registered(old(MailsOf(before)), agent, useMailbox, replace)
  {
  }

  twostate lemma MailsUnregistered(before: map<string, Registration>, new agent: string)
    requires forall a :: a in before && before[a].mailbox != null ==>
               before[a].mailbox.View() == old(before[a].mailbox.View())
    ensures MailsOf(before - {agent}) == old(MailsOf(before)) - {agent}
  {
  }

  twostate lemma MailsDelivered(agents: map<string, Registration>, new recipients: seq<string>, new m: Message)
    requires forall a :: a in agents && agents[a].mailbox != null ==>
               agents[a].mailbox.View() ==
               if a in recipients then Put(old(agents[a].mailbox.View()), m) else old(agents[a].mailbox.View())
    ensures MailsOf(agents) == Delivered(old(MailsOf(agents)), recipients, m)
  {
  }

  twostate lemma MailsKept(agents: map<string, Registration>)
    requires forall a :: a in agents && agents[a].mailbox != null ==>
               agents[a].mailbox.View() == old(agents[a].mailbox.View())
    ensures MailsOf(agents) == old(MailsOf(agents))
  {
  }

  class MessageBus {
    const le: (string, string) -> bool
    const mode: CapabilityMode
    const registry: string
    const store: TraceStore
    var agents: map<string, Registration>
    var index: Index
    var open: bool

    /** The index is the inverse of the registrations, and no two agents share a mailbox. */
    ghost predicate Valid()
      reads this
    {
      IsOrder(le) && index == Inverse(CapabilitiesOf(agents)) &&
      forall a, b :: a in agents && b in agents && a != b && agents[a].mailbox != null ==>
        agents[a].mailbox != agents[b].mailbox
    }

    ghost function Boxes(): set<Mailbox>
      reads this
    {
      BoxesOf(agents)
    }

    constructor (le: (string, string) -> bool, mode: CapabilityMode, registry: string, maxMessages: int)
      requires IsOrder(le)
      ensures Valid() && agents == map[] && open && fresh(store) && store.View() == StoreOf(maxMessages, [])
    {
      this.le, this.mode, this.registry := le, mode, registry;
      this.store := new TraceStore(maxMessages);
      agents, index, open := map[], map[], true;
      new;
      assert index == Inverse(CapabilitiesOf(agents));
    }

    method IndexAgent(agent: string, capabilities: set<string>)
      modifies this`index
      ensures index == Indexed(old(index), agent, capabilities)
    {
      var rest := capabilities;
      IndexedNone(index, agent);
      while rest != {}
        invariant rest <= capabilities
        invariant index == Indexed(old(index), agent, capabilities - rest)
        decreases rest
      {
        var c :| c in rest;
        IndexedOne(old(index), agent, capabilities - rest, c);
        assert capabilities - (rest - {c}) == capabilities - rest + {c};
        index := index[c := AgentsFor(index, c) + {agent}];
        rest := rest - {c};
      }
      assert capabilities - {} == capabilities;
    }

    method UnindexAgent(agent: string, capabilities: set<string>)
      modifies this`index
      ensures index == Unindexed(old(index), agent, capabilities)
    {
      var rest := capabilities;
      UnindexedNone(index, agent);
      while rest != {}
        invariant rest <= capabilities
        invariant index == Unindexed(old(index), agent, capabilities - rest)
        decreases rest
      {
        var c :| c in rest;
        UnindexedOne(old(index), agent, capabilities - rest, c);
        assert capabilities - (rest - {c}) == capabilities - rest + {c};
        if c in index {
          var agents := index[c] - {agent};
          index := if agents == {} then index - {c} else index[c := agents];
        }
        rest := rest - {c};
      }
      assert capabilities - {} == capabilities;
    }

    /** Give a registered or new agent the capabilities `capabilities` in the index. */
    method Reindex(agent: string, capabilities: set<string>)
      requires index == Inverse(CapabilitiesOf(agents))
      modifies this`index
      ensures index == Inverse(CapabilitiesOf(agents)[agent := capabilities])
    {
      ghost var current := CapabilitiesOf(agents);
      if agent in agents {
        ReindexedIsInverse(current, agent, capabilities);
        UnindexAgent(agent, agents[agent].capabilities);
      } else {
        IndexedIsInverse(current, agent, capabilities);
      }
      IndexAgent(agent, capabilities);
    }

    /** Write a registration, keeping the index its inverse. */
    method PutRegistration(agent: string, registration: Registration)
      requires Valid()
      requires forall a :: a in agents && a != agent && agents[a].mailbox != null ==>
               agents[a].mailbox != registration.mailbox
      modifies this`agents, this`index
      ensures Valid() && agents == old(agents)[agent := registration]
    {
      Reindex(agent, registration.capabilities);
      CapabilitiesUpdate(agents, agent, registration);
      agents := agents[agent := registration];
    }

    /** Keep what is not given anew: handler, capabilities, and always the mailbox with its contents. */
    method MergeRegistration(agent: string, hasHandler: bool, capabilities: Option<set<string>>, useMailbox: bool)
      requires Valid() && agent in agents
      modifies this`agents, this`index
      ensures Valid() && agents.Keys == old(agents).Keys
      ensures forall a :: a in agents && a != agent ==> agents[a] == old(agents)[a]
      ensures agents[agent].capabilities == if capabilities.Some? then capabilities.value
                                            else old(agents)[agent].capabilities
      ensures agents[agent].hasHandler == (hasHandler || old(agents)[agent].hasHandler)
      ensures old(agents)[agent].mailbox != null ==> agents[agent].mailbox == old(agents)[agent].mailbox
      ensures old(agents)[agent].mailbox == null && useMailbox ==>
                agents[agent].mailbox != null && fresh(agents[agent].mailbox) &&
                  agents[agent].mailbox.View() == EMPTY_MAIL
      ensures old(agents)[agent].mailbox == null && !useMailbox ==> agents[agent].mailbox == null
      ensures MailsOf(agents) == Registered(old(MailsOf(agents)), agent, useMailbox, false)
    {
      var existing := agents[agent];
      var kept := if capabilities.Some? then capabilities.value else existing.capabilities;
      var mailbox := existing.mailbox;
      if mailbox == null && useMailbox {
        mailbox := new Mailbox();
      }
      PutRegistration(agent, Registration(kept, hasHandler || existing.hasHandler, mailbox));
      MailsRegistered(old(agents), agents, agent, useMailbox, false);
    }

    /** Register an agent anew, or merge with its registration unless told to replace it. */
    method Register(agent: string, hasHandler: bool, capabilities: Option<set<string>>, useMailbox: bool, replace: bool)
      requires Valid()
      modifies this`agents, this`index
      ensures Valid() && agents.Keys == old(agents).Keys + {agent}
      ensures forall a :: a in agents && a != agent ==> agents[a] == old(agents)[a]
      ensures agents[agent].capabilities ==
                if capabilities.Some? then capabilities.value
                else if agent in old(agents) && !replace then old(agents)[agent].capabilities else {}
      ensures agent in old(agents) && !replace && old(agents)[agent].mailbox != null ==>
                agents[agent].mailbox == old(agents)[agent].mailbox
      ensures !(agent in old(agents) && !replace && old(agents)[agent].mailbox != null) ==>
                if useMailbox then agents[agent].mailbox != null && fresh(agents[agent].mailbox) &&
                  agents[agent].mailbox.View() == EMPTY_MAIL
                else agents[agent].mailbox == null
      ensures agents[agent].hasHandler ==
              (hasHandler || (agent in old(agents) && !replace && old(agents)[agent].hasHandler))
      ensures MailsOf(agents) == Registered(old(MailsOf(agents)), agent, useMailbox, replace)
    {
      if agent in agents && !replace {
        MergeRegistration(agent, hasHandler, capabilities, useMailbox);
        return;
      }
      var declared := if capabilities.Some? then capabilities.value else {};
      var mailbox: Mailbox? := null;
      if useMailbox {
        mailbox := new Mailbox();
      }
      PutRegistration(agent, Registration(declared, hasHandler, mailbox));
      MailsRegistered(old(agents), agents, agent, useMailbox, replace);
    }

    method Unregister(agent: string) returns (removed: bool)
      requires Valid()
      modifies this`agents, this`index
      ensures Valid() && removed == (agent in old(agents)) && agents == old(agents) - {agent}
      ensures MailsOf(agents) == old(MailsOf(agents)) - {agent}
    {
      if agent !in agents {
        assert agents - {agent} == agents;
        MailsUnregistered(agents, agent);
        return false;
      }
      UnindexedIsInverse(CapabilitiesOf(agents), agent);
      UnindexAgent(agent, agents[agent].capabilities);
      agents := agents - {agent};
      assert CapabilitiesOf(agents) == CapabilitiesOf(old(agents)) - {agent};
      assert Valid();
      MailsUnregistered(old(agents), agent);
      removed := true;
    }

    /** Deliver to each recipient in turn; only an unregistered one is reported as failed. */
    method Deliver(m: Message, recipients: seq<string>) returns (delivered: seq<bool>)
      requires Valid() && Distinct(recipients)
      modifies Boxes()
      ensures |delivered| == |recipients| && forall i :: 0 <= i < |recipients| ==>
              (delivered[i] <==> recipients[i] in agents)
      ensures forall a :: a in agents && agents[a].mailbox != null ==>
                agents[a].mailbox.View() ==
                if a in recipients then Put(old(agents[a].mailbox.View()), m) else old(agents[a].mailbox.View())
      ensures MailsOf(agents) == Delivered(old(MailsOf(agents)), recipients, m)
    {
      delivered := [];
      for i := 0 to |recipients|
        invariant |delivered| == i && forall j :: 0 <= j < i ==> (delivered[j] <==> recipients[j] in agents)
        invariant forall a :: a in agents && agents[a].mailbox != null ==>
                    agents[a].mailbox.View() ==
                    if a in recipients[..i] then Put(old(agents[a].mailbox.View()), m)
                    else old(agents[a].mailbox.View())
      {
        var agent := recipients[i];
        assert recipients[..i + 1] == recipients[..i] + [agent];
        assert agent !in recipients[..i];
        if agent in agents {
          var mailbox := agents[agent].mailbox;
          if mailbox != null {
            assert mailbox in Boxes();
            mailbox.Deliver(m);
          }
        }
        delivered := delivered + [agent in agents];
      }
      assert recipients[..|recipients|] == recipients;
      MailsDelivered(agents, recipients, m);
    }

    /** Record, route, deliver. */
    method Send(m: Message) returns (outcome: SendOutcome)
      requires Valid()
      modifies store, Boxes()
      ensures Valid() && (outcome.BusClosed? <==> !open)
      ensures store.View() == if open then RecordIn(old(store.View()), m) else old(store.View())
      ensures outcome.Unroutable? ==>
              !outcome.route.Recipients? &&
                RouteOk(le, mode, registry, CapabilitiesOf(agents), store.index, m, outcome.route)
      ensures outcome.DeliveryFailed? <==>
                open && m.TaskResponse? && m.inReplyTo in store.index && store.index[m.inReplyTo].sender !in agents
      ensures outcome.Sent? ==>
                RouteOk(le, mode, registry, CapabilitiesOf(agents), store.index, m, Recipients(outcome.recipients)) &&
                |outcome.delivered| == |outcome.recipients| &&
                forall i :: 0 <= i < |outcome.recipients| ==>
                  (outcome.delivered[i] <==> outcome.recipients[i] in agents)
      ensures MailsOf(agents) ==
                if outcome.Sent? then Delivered(old(MailsOf(agents)), outcome.recipients, m) else old(MailsOf(agents))
    {
      if !open {
        return BusClosed;
      }
      store.Record(m);
      MailsKept(agents);
      var route := ResolveRoute(le, mode, registry, m, index, store.index, agents.Keys, CapabilitiesOf(agents));
      if !route.Recipients? {
        return Unroutable(route);
      }
      RouteIsDistinct(le, mode, registry, CapabilitiesOf(agents), store.index, m, route);
      if !m.TaskResponse? {
        RouteIsRegistered(le, mode, registry, CapabilitiesOf(agents), store.index, m, route);
      }
      var delivered := Deliver(m, route.agents);
      if |delivered| > 0 && forall i :: 0 <= i < |delivered| ==> !delivered[i] {
        forall i | 0 <= i < |route.agents| ensures route.agents[i] !in agents {
          assert !delivered[i];
        }
        assert route.agents[0] !in agents;
        DeliveredToNone(old(MailsOf(agents)), route.agents, m);
        return DeliveryFailed;
      }
      outcome := Sent(route.agents, delivered);
    }

    /** Start a pull wait; a missing registration or mailbox is an error. */
    method WaitForMessage(agent: string, w: nat) returns (ok: bool, now: seq<Message>)
      requires Valid()
      modifies Boxes()
      ensures ok == (agent in agents && agents[agent].mailbox != null)
      ensures ok ==> agents[agent].mailbox.View() == Take(old(agents[agent].mailbox.View()), w)
      ensures forall a :: a in agents && a != agent && agents[a].mailbox != null ==>
                agents[a].mailbox.View() == old(agents[a].mailbox.View())
      ensures MailsOf(agents) == Changed(old(MailsOf(agents)), agent, Waiting(w))
      ensures now == if ok && old(agents[agent].mailbox.queue) != [] then old(agents[agent].mailbox.queue)[..1] else []
    {
      if agent !in agents || agents[agent].mailbox == null {
        return false, [];
      }
      assert agents[agent].mailbox in Boxes();
      now := agents[agent].mailbox.Wait(w);
      ok := true;
    }

    /** The timer callback of a wait on the mailbox an agent still has. */
    method OnWaitTimer(agent: string, w: nat)
      requires Valid() && agent in agents && agents[agent].mailbox != null
      modifies Boxes()
      ensures Valid() && MailsOf(agents) == Changed(old(MailsOf(agents)), agent, Timeout(w))
    {
      assert agents[agent].mailbox in Boxes();
      agents[agent].mailbox.TimeOut(w);
    }
  }

  lemma RouteIsDistinct(le: (string, string) -> bool, mode: CapabilityMode, registry: string, agents: Capabilities,
                        known: map<string, Message>, m: Message, r: Route)
    requires RouteOk(le, mode, registry, agents, known, m, r) && r.Recipients?
    ensures Distinct(r.agents) && r.agents != []
  {
  }

  /** Only a response can be routed to an agent that is no longer registered. */
  lemma RouteIsRegistered(le: (string, string) -> bool, mode: CapabilityMode, registry: string, agents: Capabilities,
                          known: map<string, Message>, m: Message, r: Route)
    requires RouteOk(le, mode, registry, agents, known, m, r) && r.Recipients? && !m.TaskResponse?
    ensures forall a :: a in r.agents ==> a in agents
  {
    forall a | a in r.agents ensures a in agents {
      assert a in Elements(r.agents);
    }
  }
}
