/** The mailboxes of a bus over runs of registrations, deliveries, waits and timeouts. */
module BusMail {
  import opened Graphs
  import opened Mailboxes
  import opened Protocol
  import opened Wrappers

  /** Per registered agent its mailbox, if it has one. */
  type Mails = map<string, Option<Mail>>

  datatype BusOperation =
    | Registering(agent: string, useMailbox: bool, replace: bool)
    | Unregistering(agent: string)
    | Delivering(recipients: seq<string>, message: Message)
    | Pulling(agent: string, wait: nat)
    | Expiring(agent: string, wait: nat)

  /** Merging keeps a mailbox with its contents; otherwise a wanted mailbox is new. */
  function Registered(mails: Mails, agent: string, useMailbox: bool, replace: bool): Mails {
    var wanted := if useMailbox then Some(EMPTY_MAIL) else None;
    mails[agent := if agent in mails && !replace && mails[agent].Some? then mails[agent] else wanted]
  }

  function Delivered(mails: Mails, recipients: seq<string>, m: Message): Mails {
    map a | a in mails :: if a in recipients && mails[a].Some? then Some(Put(mails[a].value, m)) else mails[a]
  }

  lemma DeliveredToNone(mails: Mails, recipients: seq<string>, m: Message)
    requires forall a :: a in recipients ==> a !in mails
    ensures Delivered(mails, recipients, m) == mails
  {
  }

  function Changed(mails: Mails, agent: string, op: Operation): Mails {
    if agent in mails && mails[agent].Some? then mails[agent := Some(Apply(mails[agent].value, op))] else mails
  }

  function Step(mails: Mails, op: BusOperation): Mails {
    match op
    case Registering(agent, useMailbox, replace) => Registered(mails, agent, useMailbox, replace)
    case Unregistering(agent) => mails - {agent}
    case Delivering(recipients, m) => Delivered(mails, recipients, m)
    case Pulling(agent, w) => Changed(mails, agent, Waiting(w))
    case Expiring(agent, w) => Changed(mails, agent, Timeout(w))
  }

  function Run(mails: Mails, ops: seq<BusOperation>): Mails {
    if ops == [] then mails else Step(Run(mails, ops[..|ops| - 1]), ops[|ops| - 1])
  }

  /** The operation keeps the agent registered and its mailbox in place; merging registrations do. */
  predicate Keeps(op: BusOperation, agent: string) {
    op != Unregistering(agent) && !(op.Registering? && op.agent == agent && op.replace)
  }

  /** What the operation does to the mailbox of one agent. */
  function OperationsOn(op: BusOperation, agent: string): seq<Operation> {
    match op
    case Delivering(recipients, m) => if agent in recipients then [Delivery(m)] else []
    case Pulling(a, w) => if a == agent then [Waiting(w)] else []
    case Expiring(a, w) => if a == agent then [Timeout(w)] else []
    case _ => []
  }

  function History(ops: seq<BusOperation>, agent: string): seq<Operation> {
    if ops == [] then [] else History(ops[..|ops| - 1], agent) + OperationsOn(ops[|ops| - 1], agent)
  }

  /** A kept mailbox goes through exactly its own operations, whatever is registered or unregistered around it. */
  lemma {:induction false} KeptMailbox(mails: Mails, ops: seq<BusOperation>, agent: string)
    requires agent in mails && mails[agent] == Some(EMPTY_MAIL) && forall op :: op in ops ==> Keeps(op, agent)
    ensures agent in Run(mails, ops) && Run(mails, ops)[agent] == Some(RunOps(History(ops, agent)))
  {
    if ops == [] {
    } else {
      var front, op := ops[..|ops| - 1], ops[|ops| - 1];
      assert op in ops && forall o :: o in front ==> o in ops;
      KeptMailbox(mails, front, agent);
      var before, own := History(front, agent), OperationsOn(op, agent);
      if own == [] {
        assert before + own == before;
      } else {
        assert (before + own)[..|before|] == before;
      }
    }
  }

  /**
   Conservation over any run of the bus that keeps an agent's mailbox, merging registrations included: what was
   delivered to the agent is what was handed to its waits followed by what is queued, in order; queue and waiters
   are never both occupied; and no wait, once timed out, gets a message.
   */
  lemma BusConserves(mails: Mails, ops: seq<BusOperation>, agent: string)
    requires agent in mails && mails[agent] == Some(EMPTY_MAIL) && forall op :: op in ops ==> Keeps(op, agent)
    requires Distinct(WaitsOf(History(ops, agent)))
    ensures agent in Run(mails, ops) && Run(mails, ops)[agent].Some?
    ensures var mail := Run(mails, ops)[agent].value;
            Conserves(mail, WaitsOf(History(ops, agent))) &&
            DeliveriesOf(History(ops, agent)) == MessagesHanded(mail.handed) + mail.queue &&
            Distinct(WaitsHanded(mail.handed)) &&
            forall w :: w in mail.expired ==> w !in WaitsHanded(mail.handed) && w !in mail.waiters
  {
    KeptMailbox(mails, ops, agent);
    RunConserves(History(ops, agent));
    WaitGetsAtMostOne(History(ops, agent));
  }
}
