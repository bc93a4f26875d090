/**
 All runtimes on one bus as a state machine: sends record and route, deliveries, timeouts, cancellations and stops
 happen in any order.
 */
module MessagingSystem {
  import opened AgentRuntimes
  import opened Protocol
  import opened Routing
  import opened TraceStore
  import opened Wrappers

  datatype Runtime = Runtime(state: Lifecycle, waits: Waits)

  /** `used` holds every message id ever generated; `inFlight` the deliveries still to be made. */
  datatype System = System(runtimes: map<string, Runtime>, agents: Capabilities, open: bool, log: seq<Message>,
                           used: set<string>, inFlight: seq<(Message, string)>)

  /** What stays fixed: the order of ids, the capability mode, the registry agent and the trace bound. */
  datatype Config = Config(le: (string, string) -> bool, mode: CapabilityMode, registry: string, maxMessages: int)

  datatype Action =
    | StartAgent(agent: string, capabilities: set<string>)
    | StopAgent(agent: string)
    | SendMessage(message: Message, route: Route, waitForResponse: bool)
    | Replay(message: Message)
    | DeliverTo(index: nat)
    | TimerFires(agent: string, wait: nat)
    | CancelWait(agent: string, requestId: string)
    | SetOpen(open: bool)

  const INITIAL := System(map[], map[], true, [], {}, [])

  function Known(c: Config, s: System): map<string, Message> {
    StoreOf(c.maxMessages, s.log).index
  }

  /**
   Anyone may send, registered or not; only a running runtime waits for a response to its own request. Fresh ids
   are the one thing assumed of senders; a response names any message.
   */
  ghost predicate Enabled(c: Config, s: System, a: Action) {
    match a
    case StartAgent(agent, _) => agent !in s.runtimes
    case StopAgent(agent) => agent in s.runtimes && s.runtimes[agent].state.Running?
    case SendMessage(m, route, wait) =>
      m.id !in s.used &&
      (wait ==> m.TaskRequest? && m.sender in s.runtimes && s.runtimes[m.sender].state.Running?) &&
      (s.open ==> RouteOk(c.le, c.mode, c.registry, s.agents, Known(c, s.(log := s.log + [m])), m, route))
    case Replay(m) => m.id !in s.used || m in s.log
    case DeliverTo(index) => index < |s.inFlight|
    case TimerFires(agent, _) => agent in s.runtimes
    case CancelWait(agent, _) => agent in s.runtimes
    case SetOpen(_) => true
  }

  function WithWaits(s: System, agent: string, waits: Waits): System
    requires agent in s.runtimes
  {
    s.(runtimes := s.runtimes[agent := s.runtimes[agent].(waits := waits)])
  }

  function Deliveries(m: Message, agents: seq<string>): seq<(Message, string)> {
    seq(|agents|, i requires 0 <= i < |agents| => (m, agents[i]))
  }

  /** Record and route; the deliveries of a failed send are never made. */
  function Recorded(s: System, m: Message, route: Route): System {
    s.(used := s.used + {m.id}, log := if s.open then s.log + [m] else s.log,
       inFlight := if s.open && route.Recipients? then s.inFlight + Deliveries(m, route.agents) else s.inFlight)
  }

  /** Open the wait if one is wanted, record, route; a failed send drops the wait again. */
  function Dispatch(s: System, m: Message, route: Route, wait: bool): System
    requires wait ==> m.sender in s.runtimes
  {
    var recorded := Recorded(s, m, route);
    if wait then
      var begun := Open(s.runtimes[m.sender].waits, m.id);
      WithWaits(recorded, m.sender, if s.open && route.Recipients? then begun else Cancel(begun, m.id))
    else recorded
  }

  /** Hand over one delivery; an agent no longer registered misses it. */
  function HandOver(s: System, index: nat): System
    requires index < |s.inFlight|
  {
    var (m, agent) := s.inFlight[index];
    var rest := s.(inFlight := s.inFlight[..index] + s.inFlight[index + 1..]);
    if agent in s.agents && agent in s.runtimes && m.TaskResponse?
    then WithWaits(rest, agent, Resolve(s.runtimes[agent].waits, m)) else rest
  }

  ghost function Next(c: Config, s: System, a: Action): System
    requires Enabled(c, s, a)
  {
    match a
    case StartAgent(agent, capabilities) =>
      s.(runtimes := s.runtimes[agent := Runtime(Running, NO_WAITS)], agents := s.agents[agent := capabilities])
    case StopAgent(agent) =>
      s.(runtimes := s.runtimes[agent := Runtime(Stopped, Clear(s.runtimes[agent].waits))],
         agents := s.agents - {agent})
    case SendMessage(m, route, wait) => Dispatch(s, m, route, wait)
    case Replay(m) => if m.id in Known(c, s) then s else s.(log := s.log + [m], used := s.used + {m.id})
    case DeliverTo(index) => HandOver(s, index)
    case TimerFires(agent, wait) => WithWaits(s, agent, Fire(s.runtimes[agent].waits, wait))
    case CancelWait(agent, id) => WithWaits(s, agent, Cancel(s.runtimes[agent].waits, id))
    case SetOpen(open) => s.(open := open)
  }

  /** The states a sequence of enabled actions leads through, from the initial one. */
  ghost predicate IsRun(c: Config, states: seq<System>, actions: seq<Action>) {
    |states| == |actions| + 1 && states[0] == INITIAL &&
    forall i :: 0 <= i < |actions| ==>
      Enabled(c, states[i], actions[i]) && states[i + 1] == Next(c, states[i], actions[i])
  }

  // ----- The invariant -----

  /** If the message `id` was recorded, `agent` sent it. */
  ghost predicate SentBy(log: seq<Message>, id: string, agent: string) {
    forall m :: m in log && m.id == id ==> m.sender == agent
  }

  ghost predicate RuntimeOk(s: System, agent: string)
    requires agent in s.runtimes
  {
    var r := s.runtimes[agent];
    WaitsOk(r.waits) && Unshadowed(r.waits) &&
    (forall n :: n in r.waits.requestOf ==>
     r.waits.requestOf[n] in s.used && SentBy(s.log, r.waits.requestOf[n], agent)) &&
    (forall i :: 0 <= i < |r.waits.settled| ==> ReplyWasRouted(s.log, agent, r.waits.settled[i].1)) &&
    (r.state.Stopped? ==> r.waits.pending == map[] && r.waits.timers == map[]) &&
    (r.state.Running? ==> agent in s.agents) && !r.state.Created?
  }

  /** A reply was sent, names a recorded message, and `agent` is the sender of that message. */
  ghost predicate ReplyWasRouted(log: seq<Message>, agent: string, o: Outcome) {
    o.Reply? ==> RepliesTo(log, o.message, agent)
  }

  ghost predicate RepliesTo(log: seq<Message>, m: Message, agent: string) {
    m.TaskResponse? && m in log && exists q :: q in log && q.id == m.inReplyTo && q.sender == agent
  }

  ghost predicate SystemOk(s: System) {
    UniqueMessageIds(s.log) && (forall m :: m in s.log ==> m.id in s.used) &&
    (forall agent :: agent in s.runtimes ==> RuntimeOk(s, agent)) &&
    forall i :: 0 <= i < |s.inFlight| ==> DeliveryOk(s.log, s.inFlight[i])
  }

  /** A response in flight goes to the sender of the message it names. */
  ghost predicate DeliveryOk(log: seq<Message>, d: (Message, string)) {
    d.0.TaskResponse? ==> RepliesTo(log, d.0, d.1)
  }

  /** Recording a message with a fresh id disturbs nothing known about the older ones. */
  lemma LogGrows(s: System, m: Message, agent: string)
    requires agent in s.runtimes && RuntimeOk(s, agent) && m.id !in s.used
    ensures RuntimeOk(s.(log := s.log + [m], used := s.used + {m.id}), agent)
  {
    var r := s.runtimes[agent];
    forall i | 0 <= i < |r.waits.settled| ensures ReplyWasRouted(s.log + [m], agent, r.waits.settled[i].1) {
      assert ReplyWasRouted(s.log, agent, r.waits.settled[i].1);
      if r.waits.settled[i].1.Reply? {
        RepliesStay(s.log, m, r.waits.settled[i].1.message, agent);
      }
    }
  }

  lemma RepliesStay(log: seq<Message>, m: Message, reply: Message, agent: string)
    requires RepliesTo(log, reply, agent)
    ensures RepliesTo(log + [m], reply, agent)
  {
    var q :| q in log && q.id == reply.inReplyTo && q.sender == agent;
    assert q in log + [m];
  }

  /** However small the trace bound, a response is routed to the sender of the message it names, or nowhere. */
  lemma ResponseRoute(c: Config, log: seq<Message>, m: Message, route: Route, agents: Capabilities)
    requires UniqueMessageIds(log) && m.TaskResponse?
    requires RouteOk(c.le, c.mode, c.registry, agents, StoreOf(c.maxMessages, log).index, m, route)
    ensures forall q :: q in log && q.id == m.inReplyTo ==> route == Recipients([q.sender])
    ensures (forall q :: q in log ==> q.id != m.inReplyTo) ==> route == NoRecipient
  {
    IndexIsUnbounded(c.maxMessages, log, m.inReplyTo);
    LastWithIdFound(log, m.inReplyTo);
    forall q | q in log && q.id == m.inReplyTo ensures route == Recipients([q.sender]) {
      LastWithIdIsTheMessage(log, q);
    }
  }

  lemma UniqueGrows(log: seq<Message>, m: Message)
    requires UniqueMessageIds(log) && forall x :: x in log ==> x.id != m.id
    ensures UniqueMessageIds(log + [m])
  {
  }

  /** Changing the waits of one runtime touches nothing else. */
  lemma WithWaitsOk(s: System, agent: string, waits: Waits)
    requires agent in s.runtimes
    requires UniqueMessageIds(s.log) && (forall m :: m in s.log ==> m.id in s.used)
    requires forall i :: 0 <= i < |s.inFlight| ==> DeliveryOk(s.log, s.inFlight[i])
    requires forall a :: a in s.runtimes && a != agent ==> RuntimeOk(s, a)
    requires RuntimeOk(WithWaits(s, agent, waits), agent)
    ensures SystemOk(WithWaits(s, agent, waits))
  {
    var s' := WithWaits(s, agent, waits);
    forall a | a in s'.runtimes ensures RuntimeOk(s', a) {
      if a != agent {
        assert s'.runtimes[a] == s.runtimes[a] && RuntimeOk(s, a);
      }
    }
  }

  lemma FreshIsNotPending(s: System, agent: string, id: string)
    requires agent in s.runtimes && RuntimeOk(s, agent) && id !in s.used
    ensures id !in s.runtimes[agent].waits.pending
  {
    var w := s.runtimes[agent].waits;
    forall x | x in w.pending ensures x in s.used {
      assert w.timers[w.pending[x]] == w.requestOf[w.pending[x]];
    }
  }

  /** The sender's waits after it started to wait, when the message went out or was refused. */
  lemma SenderOk(s: System, m: Message, route: Route, begun: Waits)
    requires SystemOk(s) && m.sender in s.runtimes && m.id !in s.used && s.runtimes[m.sender].state.Running?
    requires var w := s.runtimes[m.sender].waits; begun == Open(w, m.id) || begun == Cancel(Open(w, m.id), m.id)
    ensures RuntimeOk(WithWaits(Recorded(s, m, route), m.sender, begun), m.sender)
  {
    var agent, w, s' := m.sender, s.runtimes[m.sender].waits, Recorded(s, m, route);
    LogGrows(s, m, agent);
    FreshIsNotPending(s, agent, m.id);
    OpenOk(w, m.id);
    CancelOk(Open(w, m.id), m.id);
    assert begun.settled == w.settled;
    forall n | n in begun.requestOf ensures SentBy(s'.log, begun.requestOf[n], agent) {
      assert n in w.requestOf ==> SentBy(s.log, w.requestOf[n], agent);
    }
  }

  lemma RecordedOk(c: Config, s: System, m: Message, route: Route)
    requires SystemOk(s) && m.id !in s.used
    requires s.open ==> RouteOk(c.le, c.mode, c.registry, s.agents, Known(c, s.(log := s.log + [m])), m, route)
    ensures SystemOk(Recorded(s, m, route))
  {
    var s' := Recorded(s, m, route);
    UniqueGrows(s.log, m);
    forall a | a in s'.runtimes ensures RuntimeOk(s', a) {
      LogGrows(s, m, a);
      assert RuntimeOk(s, a);
    }
    forall i | 0 <= i < |s'.inFlight| ensures DeliveryOk(s'.log, s'.inFlight[i]) {
      FlightOk(c, s, m, route, i);
    }
  }

  lemma SendKeepsOk(c: Config, s: System, m: Message, route: Route, wait: bool)
    requires SystemOk(s) && Enabled(c, s, SendMessage(m, route, wait))
    ensures SystemOk(Dispatch(s, m, route, wait))
  {
    RecordedOk(c, s, m, route);
    if wait {
      var begun := Open(s.runtimes[m.sender].waits, m.id);
      var waits := if s.open && route.Recipients? then begun else Cancel(begun, m.id);
      SenderOk(s, m, route, waits);
      WithWaitsOk(Recorded(s, m, route), m.sender, waits);
    }
  }

  lemma FlightOk(c: Config, s: System, m: Message, route: Route, i: nat)
    requires SystemOk(s) && m.id !in s.used
    requires s.open ==> RouteOk(c.le, c.mode, c.registry, s.agents, Known(c, s.(log := s.log + [m])), m, route)
    requires i < |Recorded(s, m, route).inFlight|
    ensures DeliveryOk(Recorded(s, m, route).log, Recorded(s, m, route).inFlight[i])
  {
    if i < |s.inFlight| {
      var d := s.inFlight[i];
      assert DeliveryOk(s.log, d);
      if d.0.TaskResponse? {
        RepliesStay(s.log, m, d.0, d.1);
      }
    } else if m.TaskResponse? {
      var log, agent := s.log + [m], route.agents[i - |s.inFlight|];
      UniqueGrows(s.log, m);
      ResponseRoute(c, log, m, route, s.agents);
      var q :| q in log && q.id == m.inReplyTo;
      assert route == Recipients([q.sender]);
      assert RepliesTo(log, m, agent);
    }
  }

  lemma ReplayKeepsOk(c: Config, s: System, m: Message)
    requires SystemOk(s) && Enabled(c, s, Replay(m))
    ensures SystemOk(Next(c, s, Replay(m)))
  {
    IndexIsUnbounded(c.maxMessages, s.log, m.id);
    LastWithIdFound(s.log, m.id);
    if m.id !in Known(c, s) {
      UniqueGrows(s.log, m);
      var s' := s.(log := s.log + [m], used := s.used + {m.id});
      forall a | a in s'.runtimes ensures RuntimeOk(s', a) {
        LogGrows(s, m, a);
      }
      forall i | 0 <= i < |s'.inFlight| ensures DeliveryOk(s'.log, s'.inFlight[i]) {
        assert DeliveryOk(s.log, s.inFlight[i]);
        if s.inFlight[i].0.TaskResponse? {
          RepliesStay(s.log, m, s.inFlight[i].0, s.inFlight[i].1);
        }
      }
    }
  }

  lemma HandOverKeepsOk(s: System, index: nat)
    requires SystemOk(s) && index < |s.inFlight|
    ensures SystemOk(HandOver(s, index))
  {
    var (m, agent) := s.inFlight[index];
    assert DeliveryOk(s.log, s.inFlight[index]);
    DropKeepsOk(s, index);
    var rest := s.(inFlight := s.inFlight[..index] + s.inFlight[index + 1..]);
    if agent in s.agents && agent in s.runtimes && m.TaskResponse? {
      ResolveKeepsOk(rest, agent, m);
    }
  }

  lemma DropKeepsOk(s: System, index: nat)
    requires SystemOk(s) && index < |s.inFlight|
    ensures SystemOk(s.(inFlight := s.inFlight[..index] + s.inFlight[index + 1..]))
  {
    var rest := s.(inFlight := s.inFlight[..index] + s.inFlight[index + 1..]);
    forall i | 0 <= i < |rest.inFlight| ensures DeliveryOk(s.log, rest.inFlight[i]) {
      assert DeliveryOk(s.log, s.inFlight[if i < index then i else i + 1]);
    }
    SameRuntimesOk(s, rest);
  }

  lemma SameRuntimesOk(s: System, s': System)
    requires SystemOk(s) && s'.runtimes == s.runtimes && s'.log == s.log && s'.used == s.used && s'.agents == s.agents
    ensures forall a :: a in s'.runtimes ==> RuntimeOk(s', a)
  {
    forall a | a in s'.runtimes ensures RuntimeOk(s', a) {
      assert RuntimeOk(s, a);
    }
  }

  lemma ResolveKeepsOk(s: System, agent: string, m: Message)
    requires SystemOk(s) && agent in s.runtimes && RepliesTo(s.log, m, agent)
    ensures SystemOk(WithWaits(s, agent, Resolve(s.runtimes[agent].waits, m)))
  {
    var w := s.runtimes[agent].waits;
    ResolveOk(w, m);
    var w' := Resolve(w, m);
    forall i | 0 <= i < |w'.settled| ensures ReplyWasRouted(s.log, agent, w'.settled[i].1) {
      assert i < |w.settled| ==> ReplyWasRouted(s.log, agent, w.settled[i].1);
    }
    WithWaitsOk(s, agent, w');
  }

  lemma FireKeepsOk(s: System, agent: string, n: nat)
    requires SystemOk(s) && agent in s.runtimes
    ensures SystemOk(WithWaits(s, agent, Fire(s.runtimes[agent].waits, n)))
  {
    var w := s.runtimes[agent].waits;
    FireOk(w, n);
    var w' := Fire(w, n);
    forall i | 0 <= i < |w'.settled| ensures ReplyWasRouted(s.log, agent, w'.settled[i].1) {
      assert i < |w.settled| ==> ReplyWasRouted(s.log, agent, w.settled[i].1);
    }
    WithWaitsOk(s, agent, w');
  }

  lemma CancelKeepsOk(s: System, agent: string, id: string)
    requires SystemOk(s) && agent in s.runtimes
    ensures SystemOk(WithWaits(s, agent, Cancel(s.runtimes[agent].waits, id)))
  {
    CancelOk(s.runtimes[agent].waits, id);
    WithWaitsOk(s, agent, Cancel(s.runtimes[agent].waits, id));
  }

  lemma StartKeepsOk(s: System, agent: string, capabilities: set<string>)
    requires SystemOk(s)
    ensures SystemOk(s.(runtimes := s.runtimes[agent := Runtime(Running, NO_WAITS)],
                        agents := s.agents[agent := capabilities]))
  {
    var s' := s.(runtimes := s.runtimes[agent := Runtime(Running, NO_WAITS)],
                 agents := s.agents[agent := capabilities]);
    forall x | x in s'.runtimes ensures RuntimeOk(s', x) {
      if x != agent {
        assert RuntimeOk(s, x);
      }
    }
  }

  lemma StopKeepsOk(s: System, agent: string)
    requires SystemOk(s) && agent in s.runtimes
    ensures SystemOk(s.(runtimes := s.runtimes[agent := Runtime(Stopped, Clear(s.runtimes[agent].waits))],
                        agents := s.agents - {agent}))
  {
    var s' := s.(runtimes := s.runtimes[agent := Runtime(Stopped, Clear(s.runtimes[agent].waits))],
                 agents := s.agents - {agent});
    ClearOk(s.runtimes[agent].waits);
    forall a | a in s'.runtimes ensures RuntimeOk(s', a) {
      assert RuntimeOk(s, a);
    }
  }

  /** Every enabled action keeps the invariant. */
  lemma StepKeepsOk(c: Config, s: System, a: Action)
    requires SystemOk(s) && Enabled(c, s, a)
    ensures SystemOk(Next(c, s, a))
  {
    match a {
      case StartAgent(agent, capabilities) => StartKeepsOk(s, agent, capabilities);
      case StopAgent(agent) => StopKeepsOk(s, agent);
      case SendMessage(m, route, wait) => SendKeepsOk(c, s, m, route, wait);
      case Replay(m) => ReplayKeepsOk(c, s, m);
      case DeliverTo(index) => HandOverKeepsOk(s, index);
      case TimerFires(agent, wait) => FireKeepsOk(s, agent, wait);
      case CancelWait(agent, id) => CancelKeepsOk(s, agent, id);
      case SetOpen(open) => SameRuntimesOk(s, s.(open := open));
    }
  }

  lemma {:induction false} RunKeepsOk(c: Config, states: seq<System>, actions: seq<Action>, i: nat)
    requires IsRun(c, states, actions) && i < |states|
    ensures SystemOk(states[i])
  {
    if i == 0 {
    } else {
      RunKeepsOk(c, states, actions, i - 1);
      StepKeepsOk(c, states[i - 1], actions[i - 1]);
    }
  }

  // ----- What every run guarantees -----

  /**
   In every state of every run: no wait is settled twice; a wait settled by a reply got a recorded response
   naming its request; and if that request was recorded, the waiting agent is its sender.
   */
  lemma WaitsSettleSafely(c: Config, states: seq<System>, actions: seq<Action>, i: nat, agent: string)
    requires IsRun(c, states, actions) && i < |states| && agent in states[i].runtimes
    ensures var w := states[i].runtimes[agent].waits;
            SettledOnce(w) && Settled(w) !! w.abandoned && Settled(w) !! w.timers.Keys &&
            forall k :: 0 <= k < |w.settled| ==>
              w.settled[k].1.TimedOut? ||
              (RepliesTo(states[i].log, w.settled[k].1.message, agent) && w.settled[k].0 in w.requestOf &&
               w.settled[k].1.message.inReplyTo == w.requestOf[w.settled[k].0])
  {
    RunKeepsOk(c, states, actions, i);
    var w := states[i].runtimes[agent].waits;
    assert RuntimeOk(states[i], agent);
    forall k | 0 <= k < |w.settled|
      ensures w.settled[k].1.TimedOut? ||
              (RepliesTo(states[i].log, w.settled[k].1.message, agent) && w.settled[k].0 in w.requestOf &&
               w.settled[k].1.message.inReplyTo == w.requestOf[w.settled[k].0])
    {
      assert ReplyWasRouted(states[i].log, agent, w.settled[k].1) && AnswersItsRequest(w, k);
    }
  }

  /**
   Nor is a response lost on a runtime that waits for it: in every run, handing a response to a running runtime
   with a live wait for the request it names settles that wait with that response.
   */
  lemma HandedResponseSettles(c: Config, states: seq<System>, actions: seq<Action>, i: nat, n: nat)
    requires IsRun(c, states, actions) && i < |actions| && actions[i].DeliverTo?
    requires actions[i].index < |states[i].inFlight|
    requires var (m, agent) := states[i].inFlight[actions[i].index];
             m.TaskResponse? && agent in states[i].runtimes && states[i].runtimes[agent].state.Running? &&
             n in states[i].runtimes[agent].waits.timers &&
             states[i].runtimes[agent].waits.timers[n] == m.inReplyTo
    ensures var (m, agent) := states[i].inFlight[actions[i].index];
            agent in states[i + 1].runtimes &&
            states[i + 1].runtimes[agent].waits.settled == states[i].runtimes[agent].waits.settled + [(n, Reply(m))]
  {
    RunKeepsOk(c, states, actions, i);
    var (m, agent) := states[i].inFlight[actions[i].index];
    assert RuntimeOk(states[i], agent);
    assert Enabled(c, states[i], actions[i]) && states[i + 1] == Next(c, states[i], actions[i]);
  }

  /**
   In every run a live timer settles its wait as timed out and takes its request out of the pending ones; a timer
   that is not live does nothing.
   */
  lemma TimerSettles(c: Config, states: seq<System>, actions: seq<Action>, i: nat, agent: string, n: nat)
    requires IsRun(c, states, actions) && i < |actions| && actions[i] == TimerFires(agent, n)
    ensures agent in states[i].runtimes && agent in states[i + 1].runtimes
    ensures var w, w' := states[i].runtimes[agent].waits, states[i + 1].runtimes[agent].waits;
            if n in w.timers then
              w'.settled == w.settled + [(n, TimedOut)] && w'.timers == w.timers - {n} &&
              w.timers[n] in w.pending && w'.pending == w.pending - {w.timers[n]} && w'.abandoned == w.abandoned
            else w' == w
  {
    RunKeepsOk(c, states, actions, i);
    assert Enabled(c, states[i], actions[i]) && states[i + 1] == Next(c, states[i], actions[i]);
    assert RuntimeOk(states[i], agent);
  }

  /** A cancellation drops the pending wait of its request: it leaves timers and pending requests, and never settles. */
  lemma CancelDrops(c: Config, states: seq<System>, actions: seq<Action>, i: nat, agent: string, id: string)
    requires IsRun(c, states, actions) && i < |actions| && actions[i] == CancelWait(agent, id)
    ensures agent in states[i].runtimes && agent in states[i + 1].runtimes
    ensures var w, w' := states[i].runtimes[agent].waits, states[i + 1].runtimes[agent].waits;
            w'.settled == w.settled &&
            if id in w.pending then
              w'.timers == w.timers - {w.pending[id]} && w'.pending == w.pending - {id} &&
              w'.abandoned == w.abandoned + {w.pending[id]}
            else w' == w
  {
    assert Enabled(c, states[i], actions[i]) && states[i + 1] == Next(c, states[i], actions[i]);
  }

  /** The waits of one agent after an action. */
  function WaitsAfter(s: System, a: Action, agent: string): Waits
    requires agent in s.runtimes
  {
    var w := s.runtimes[agent].waits;
    match a
    case StopAgent(x) => if x == agent then Clear(w) else w
    case SendMessage(m, route, wait) =>
      if !wait || m.sender != agent then w
      else if s.open && route.Recipients? then Open(w, m.id) else Cancel(Open(w, m.id), m.id)
    case DeliverTo(k) =>
      if k < |s.inFlight| && s.inFlight[k].1 == agent && agent in s.agents && s.inFlight[k].0.TaskResponse?
      then Resolve(w, s.inFlight[k].0) else w
    case TimerFires(x, n) => if x == agent then Fire(w, n) else w
    case CancelWait(x, id) => if x == agent then Cancel(w, id) else w
    case _ => w
  }

  lemma NextWaits(c: Config, s: System, a: Action, agent: string)
    requires Enabled(c, s, a) && agent in s.runtimes
    ensures agent in Next(c, s, a).runtimes && Next(c, s, a).runtimes[agent].waits == WaitsAfter(s, a, agent)
    ensures Next(c, s, a).runtimes[agent].state == if a == StopAgent(agent) then Stopped else s.runtimes[agent].state
  {
  }

  /** What an action does to the deliveries under way. */
  ghost predicate MovesDeliveries(s: System, a: Action, left: seq<(Message, string)>) {
    match a
    case SendMessage(m, route, _) =>
      if s.open && route.Recipients? then
        s.inFlight <= left && |left| == |s.inFlight| + |route.agents| &&
        forall i :: 0 <= i < |route.agents| ==> left[|s.inFlight| + i] == (m, route.agents[i])
      else left == s.inFlight
    case DeliverTo(k) =>
      k < |s.inFlight| && |left| >= k && s.inFlight == left[..k] + [s.inFlight[k]] + left[k..]
    case _ => left == s.inFlight
  }

  /**
   No delivery is lost or made up: a send that is routed adds one delivery for each recipient, handing over takes one
   away, and nothing else touches them.
   */
  lemma DeliveriesConserved(c: Config, s: System, a: Action)
    requires Enabled(c, s, a)
    ensures MovesDeliveries(s, a, Next(c, s, a).inFlight)
  {
    match a {
      case DeliverTo(k) => HandOverTakes(s, k);
      case SendMessage(m, route, wait) => DispatchAdds(s, m, route, wait);
      case _ =>
    }
  }

  lemma DispatchAdds(s: System, m: Message, route: Route, wait: bool)
    requires wait ==> m.sender in s.runtimes
    ensures MovesDeliveries(s, SendMessage(m, route, wait), Dispatch(s, m, route, wait).inFlight)
  {
  }

  lemma HandOverTakes(s: System, k: nat)
    requires k < |s.inFlight|
    ensures var left := HandOver(s, k).inFlight; |left| >= k && s.inFlight == left[..k] + [s.inFlight[k]] + left[k..]
  {
  }

  /** Why a wait is dropped: it is cancelled, its agent stops, or its own send went nowhere. */
  predicate DropsWait(s: System, a: Action, agent: string, n: nat)
    requires agent in s.runtimes
  {
    var w := s.runtimes[agent].waits;
    match a
    case CancelWait(x, id) => x == agent && n in w.timers && w.timers[n] == id
    case StopAgent(x) => x == agent && n in w.timers
    case SendMessage(m, route, wait) => m.sender == agent && wait && n == w.next && !(s.open && route.Recipients?)
    case _ => false
  }

  /** Why a wait settles: its own timer fires, or a response that names its request is handed to its agent. */
  predicate SettlesWait(s: System, a: Action, agent: string, n: nat)
    requires agent in s.runtimes
  {
    var w := s.runtimes[agent].waits;
    n in w.timers &&
    match a
    case TimerFires(x, k) => x == agent && k == n
    case DeliverTo(_) => HandsAnswer(s, a, w.timers[n]) && s.inFlight[a.index].1 == agent
    case _ => false
  }

  /**
   How waits end. In every step of every run a wait is dropped, or settled, only for the reasons above, and no
   settlement is ever taken back.
   */
  lemma WaitsEndOnlyThen(c: Config, states: seq<System>, actions: seq<Action>, i: nat, agent: string)
    requires IsRun(c, states, actions) && i < |actions| && agent in states[i].runtimes
    ensures agent in states[i + 1].runtimes
    ensures var w, w' := states[i].runtimes[agent].waits, states[i + 1].runtimes[agent].waits;
            w.settled <= w'.settled &&
            (forall n :: n in w'.abandoned && n !in w.abandoned ==> DropsWait(states[i], actions[i], agent, n)) &&
            (forall n :: n in Settled(w') && n !in Settled(w) ==> SettlesWait(states[i], actions[i], agent, n))
  {
    RunKeepsOk(c, states, actions, i);
    assert Enabled(c, states[i], actions[i]) && states[i + 1] == Next(c, states[i], actions[i]);
    NextWaits(c, states[i], actions[i], agent);
    DroppedOnlyThen(states[i], actions[i], agent);
    SettledOnlyThen(states[i], actions[i], agent);
  }

  lemma DroppedOnlyThen(s: System, a: Action, agent: string)
    requires agent in s.runtimes && WaitsOk(s.runtimes[agent].waits)
    ensures forall n :: n in WaitsAfter(s, a, agent).abandoned && n !in s.runtimes[agent].waits.abandoned ==>
              DropsWait(s, a, agent, n)
  {
    if a.SendMessage? {
      FreshIsDropped(s.runtimes[agent].waits, a.message.id);
    }
  }

  lemma SettledOnlyThen(s: System, a: Action, agent: string)
    requires agent in s.runtimes && WaitsOk(s.runtimes[agent].waits)
    ensures var w, w' := s.runtimes[agent].waits, WaitsAfter(s, a, agent);
            w.settled <= w'.settled &&
            forall n :: n in Settled(w') && n !in Settled(w) ==> SettlesWait(s, a, agent, n)
  {
    var w, w' := s.runtimes[agent].waits, WaitsAfter(s, a, agent);
    if a.SendMessage? {
      FreshIsDropped(w, a.message.id);
    }
    assert forall k :: 0 <= k < |w.settled| ==> w'.settled[k] == w.settled[k] && w.settled[k].0 in Settled(w);
    forall n | n in Settled(w') && n !in Settled(w) ensures SettlesWait(s, a, agent, n) {
      var k :| 0 <= k < |w'.settled| && w'.settled[k].0 == n;
    }
  }

  lemma FreshIsDropped(w: Waits, id: string)
    ensures Cancel(Open(w, id), id).abandoned == w.abandoned + {w.next}
    ensures Cancel(Open(w, id), id).settled == w.settled && Open(w, id).abandoned == w.abandoned
  {
  }

  /** A response in flight is on its way to the sender of the message it names, in every state of every run. */
  lemma ResponsesReachRequesters(c: Config, states: seq<System>, actions: seq<Action>, i: nat, k: nat)
    requires IsRun(c, states, actions) && i < |states| && k < |states[i].inFlight|
    requires states[i].inFlight[k].0.TaskResponse?
    ensures forall q :: q in states[i].log && q.id == states[i].inFlight[k].0.inReplyTo ==>
            q.sender == states[i].inFlight[k].1
  {
    RunKeepsOk(c, states, actions, i);
    assert DeliveryOk(states[i].log, states[i].inFlight[k]);
  }

  // ----- From a request to its answer -----

  predicate IsLive(w: Waits, n: nat, id: string) {
    n in w.timers && w.timers[n] == id
  }

  lemma LiveStays(w: Waits, n: nat, id: string)
    requires WaitsOk(w) && Unshadowed(w) && IsLive(w, n, id)
    ensures forall x :: IsLive(Open(w, x), n, id) && IsLive(Cancel(Open(w, x), x), n, id)
    ensures forall k :: k != n ==> IsLive(Fire(w, k), n, id)
    ensures forall x :: x != id ==> IsLive(Cancel(w, x), n, id)
    ensures forall m: Message :: m.TaskResponse? && m.inReplyTo != id ==> IsLive(Resolve(w, m), n, id)
  {
  }

  /** `agent` runs and its wait `n` for a response to the message `id` is live. */
  predicate Awaits(s: System, agent: string, n: nat, id: string) {
    agent in s.runtimes && s.runtimes[agent].state.Running? && IsLive(s.runtimes[agent].waits, n, id)
  }

  /** The action hands over a response to the message `id`. */
  predicate HandsAnswer(s: System, a: Action, id: string) {
    a.DeliverTo? && a.index < |s.inFlight| &&
    s.inFlight[a.index].0.TaskResponse? && s.inFlight[a.index].0.inReplyTo == id
  }

  /** The wait is not timed out, dropped, ended with its agent, nor answered. */
  predicate Undisturbed(s: System, a: Action, agent: string, n: nat, id: string) {
    a != TimerFires(agent, n) && a != CancelWait(agent, id) && a != StopAgent(agent) && !HandsAnswer(s, a, id)
  }

  lemma AwaitsStep(c: Config, s: System, a: Action, agent: string, n: nat, id: string)
    requires SystemOk(s) && Enabled(c, s, a) && Awaits(s, agent, n, id) && Undisturbed(s, a, agent, n, id)
    ensures Awaits(Next(c, s, a), agent, n, id)
  {
    assert RuntimeOk(s, agent);
    NextWaits(c, s, a, agent);
    LiveStays(s.runtimes[agent].waits, n, id);
  }

  lemma LogStep(c: Config, s: System, a: Action)
    requires Enabled(c, s, a)
    ensures s.log <= Next(c, s, a).log
  {
  }

  lemma {:induction false} StaysRecorded(c: Config, states: seq<System>, actions: seq<Action>, i: nat, j: nat,
                                         m: Message)
    requires IsRun(c, states, actions) && i <= j < |states| && m in states[i].log
    ensures m in states[j].log
    decreases j
  {
    if i == j {
    } else {
      StaysRecorded(c, states, actions, i, j - 1, m);
      LogStep(c, states[j - 1], actions[j - 1]);
    }
  }

  /** A sent request is awaited until its wait is disturbed. */
  lemma {:induction false} RequestStaysAwaited(c: Config, states: seq<System>, actions: seq<Action>, i: nat, j: nat)
    requires IsRun(c, states, actions) && i < j < |states| && IsAwaitedSend(states[i], actions[i])
    requires forall k :: i < k < j ==>
               Undisturbed(states[k], actions[k], actions[i].message.sender, WaitOf(states[i], actions[i]),
                           actions[i].message.id)
    ensures Awaits(states[j], actions[i].message.sender, WaitOf(states[i], actions[i]), actions[i].message.id)
    decreases j
  {
    var m, n := actions[i].message, WaitOf(states[i], actions[i]);
    RunKeepsOk(c, states, actions, j - 1);
    if j == i + 1 {
      assert Enabled(c, states[i], actions[i]) && states[j] == Next(c, states[i], actions[i]);
    } else {
      RequestStaysAwaited(c, states, actions, i, j - 1);
      AwaitsStep(c, states[j - 1], actions[j - 1], m.sender, n, m.id);
    }
  }

  /** The action sends a request that is delivered to someone and waits for the response. */
  predicate IsAwaitedSend(s: System, a: Action) {
    a.SendMessage? && a.waitForResponse && s.open && a.route.Recipients? && a.message.sender in s.runtimes
  }

  /** The wait such a send starts. */
  function WaitOf(s: System, a: Action): nat
    requires IsAwaitedSend(s, a)
  {
    s.runtimes[a.message.sender].waits.next
  }

  /**
   Every request gets its first answer: in every run, if the wait of a sent request is neither timed out, dropped
   nor ended by stopping its agent, then the first response to it that is handed over goes to the agent that sent
   the request and settles exactly that wait with exactly that response.
   */
  lemma RequestIsAnswered(c: Config, states: seq<System>, actions: seq<Action>, i: nat, j: nat)
    requires IsRun(c, states, actions) && i < j < |actions| && IsAwaitedSend(states[i], actions[i])
    requires forall k :: i < k < j ==>
               Undisturbed(states[k], actions[k], actions[i].message.sender, WaitOf(states[i], actions[i]),
                           actions[i].message.id)
    requires HandsAnswer(states[j], actions[j], actions[i].message.id)
    ensures var agent, n := actions[i].message.sender, WaitOf(states[i], actions[i]);
            var (response, to) := states[j].inFlight[actions[j].index];
            to == agent && agent in states[j].runtimes && agent in states[j + 1].runtimes &&
            states[j + 1].runtimes[agent].waits.settled ==
            states[j].runtimes[agent].waits.settled + [(n, Reply(response))]
  {
    var request, n := actions[i].message, WaitOf(states[i], actions[i]);
    RequestStaysAwaited(c, states, actions, i, j);
    assert request in states[i + 1].log by {
      assert states[i + 1] == Next(c, states[i], actions[i]);
    }
    StaysRecorded(c, states, actions, i + 1, j, request);
    ResponsesReachRequesters(c, states, actions, j, actions[j].index);
    HandedResponseSettles(c, states, actions, j, n);
  }

  // ----- Stopping -----

  lemma StoppedStep(c: Config, s: System, a: Action, agent: string)
    requires SystemOk(s) && Enabled(c, s, a) && agent in s.runtimes && s.runtimes[agent].state.Stopped?
    ensures var s' := Next(c, s, a);
            agent in s'.runtimes && s'.runtimes[agent].state.Stopped? &&
            s'.runtimes[agent].waits.settled == s.runtimes[agent].waits.settled
  {
    assert RuntimeOk(s, agent);
    NextWaits(c, s, a, agent);
  }

  /** A stopped agent settles nothing any more: whatever was pending when it stopped is never settled. */
  lemma {:induction false} StoppedNeverSettles(c: Config, states: seq<System>, actions: seq<Action>, i: nat, j: nat,
                                               agent: string)
    requires IsRun(c, states, actions) && i <= j < |states|
    requires agent in states[i].runtimes && states[i].runtimes[agent].state.Stopped?
    ensures agent in states[j].runtimes && states[j].runtimes[agent].state.Stopped?
    ensures states[j].runtimes[agent].waits.settled == states[i].runtimes[agent].waits.settled
    decreases j
  {
    if i == j {
    } else {
      StoppedNeverSettles(c, states, actions, i, j - 1, agent);
      RunKeepsOk(c, states, actions, j - 1);
      StoppedStep(c, states[j - 1], actions[j - 1], agent);
    }
  }

  /** In particular a wait that is live when its agent stops is never settled. */
  lemma PendingAtStopIsLost(c: Config, states: seq<System>, actions: seq<Action>, i: nat, j: nat, agent: string, n: nat)
    requires IsRun(c, states, actions) && i < |actions| && i < j < |states| && actions[i] == StopAgent(agent)
    requires agent in states[i].runtimes && n in states[i].runtimes[agent].waits.timers
    ensures agent in states[j].runtimes && n !in Settled(states[j].runtimes[agent].waits)
  {
    RunKeepsOk(c, states, actions, i);
    assert RuntimeOk(states[i], agent);
    assert Enabled(c, states[i], actions[i]) && states[i + 1] == Next(c, states[i], actions[i]);
    StoppedNeverSettles(c, states, actions, i + 1, j, agent);
    var w := states[i].runtimes[agent].waits;
    assert states[j].runtimes[agent].waits.settled == w.settled;
    assert Settled(states[j].runtimes[agent].waits) == Settled(w);
  }

  /** Such waits exist: an agent starts, asks itself for work, and stops before it answers. */
  lemma StopLosesWait(c: Config) returns (states: seq<System>, actions: seq<Action>)
    ensures IsRun(c, states, actions) && |actions| == 3 && actions[2] == StopAgent("a")
    ensures "a" in states[2].runtimes && 0 in states[2].runtimes["a"].waits.timers
    ensures "a" in states[3].runtimes && states[3].runtimes["a"].waits.settled == []
  {
    var m := TaskRequest("q", "t", "a", Some("a"), "work", "now");
    actions := [StartAgent("a", {}), SendMessage(m, Recipients(["a"]), true), StopAgent("a")];
    var started := Next(c, INITIAL, actions[0]);
    assert Enabled(c, started, actions[1]);
    var waiting := Next(c, started, actions[1]);
    assert waiting.runtimes == map["a" := Runtime(Running, Open(NO_WAITS, "q"))];
    states := [INITIAL, started, waiting, Next(c, waiting, actions[2])];
  }
}
