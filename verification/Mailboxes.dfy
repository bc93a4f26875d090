/** A pull mailbox: queued messages, or waiters for messages to come, with the history of both. */
module Mailboxes {
  import opened Graphs
  import opened Protocol

  /**
   The value of a mailbox. `put`, `handed` and `expired` are its history: every message put in, every message
   handed to a wait, and the waits that timed out.
   */
  datatype Mail = Mail(queue: seq<Message>, waiters: seq<nat>,
                       put: seq<Message>, handed: seq<(nat, Message)>, expired: set<nat>)

  const EMPTY_MAIL := Mail([], [], [], [], {})

  /** A delivery: the oldest waiter gets the message, or it is queued. */
  function Put(s: Mail, m: Message): Mail {
    if s.waiters != [] then s.(waiters := s.waiters[1..], put := s.put + [m], handed := s.handed + [(s.waiters[0], m)])
    else s.(queue := s.queue + [m], put := s.put + [m])
  }

  /** A wait: the oldest queued message at once, or a place among the waiters. */
  function Take(s: Mail, w: nat): Mail {
    if s.queue != [] then s.(queue := s.queue[1..], handed := s.handed + [(w, s.queue[0])])
    else s.(waiters := s.waiters + [w])
  }

  function Without(ws: seq<nat>, w: nat): seq<nat> {
    if ws == [] then [] else if ws[0] == w then ws[1..] else [ws[0]] + Without(ws[1..], w)
  }

  /** A timeout; the timer of a wait that was served has been cleared, so then nothing happens. */
  function Expire(s: Mail, w: nat): Mail {
    if w in s.waiters then s.(waiters := Without(s.waiters, w), expired := s.expired + {w}) else s
  }

  class Mailbox {
    var queue: seq<Message>
    var waiters: seq<nat>
    ghost var put: seq<Message>
    ghost var handed: seq<(nat, Message)>
    ghost var expired: set<nat>

    ghost function View(): Mail
      reads this
    {
      Mail(queue, waiters, put, handed, expired)
    }

    constructor ()
      ensures View() == EMPTY_MAIL
    {
      queue, waiters, put, handed, expired := [], [], [], [], {};
    }

    method Deliver(m: Message)
      modifies this
      ensures View() == Put(old(View()), m)
    {
      put := put + [m];
      if |waiters| > 0 {
        var waiter := waiters[0];
        waiters := waiters[1..];
        handed := handed + [(waiter, m)];
      } else {
        queue := queue + [m];
      }
    }

    /** Start wait `w`; `now` is the message it gets without waiting, if any. */
    method Wait(w: nat) returns (now: seq<Message>)
      modifies this
      ensures View() == Take(old(View()), w)
      ensures now == old(queue)[..if old(queue) == [] then 0 else 1]
    {
      if |queue| > 0 {
        now := queue[..1];
        handed := handed + [(w, queue[0])];
        queue := queue[1..];
      } else {
        now := [];
        waiters := waiters + [w];
      }
    }

    method TimeOut(w: nat)
      modifies this
      ensures View() == Expire(old(View()), w)
    {
      if w in waiters {
        waiters := Without(waiters, w);
        expired := expired + {w};
      }
    }
  }

  // ----- What every run of a mailbox keeps -----

  datatype Operation = Delivery(message: Message) | Waiting(wait: nat) | Timeout(wait: nat)

  function Apply(s: Mail, op: Operation): Mail {
    match op
    case Delivery(m) => Put(s, m)
    case Waiting(w) => Take(s, w)
    case Timeout(w) => Expire(s, w)
  }

  function RunOps(ops: seq<Operation>): Mail {
    if ops == [] then EMPTY_MAIL else Apply(RunOps(ops[..|ops| - 1]), ops[|ops| - 1])
  }

  /** The waits of a run, in the order they were started. */
  function WaitsOf(ops: seq<Operation>): seq<nat> {
    if ops == [] then [] else
      WaitsOf(ops[..|ops| - 1]) + if ops[|ops| - 1].Waiting? then [ops[|ops| - 1].wait] else []
  }

  /** The messages of the deliveries of a run, in order. */
  function DeliveriesOf(ops: seq<Operation>): seq<Message> {
    if ops == [] then [] else
      DeliveriesOf(ops[..|ops| - 1]) + if ops[|ops| - 1].Delivery? then [ops[|ops| - 1].message] else []
  }

  function MessagesHanded(handed: seq<(nat, Message)>): seq<Message> {
    seq(|handed|, i requires 0 <= i < |handed| => handed[i].1)
  }

  function WaitsHanded(handed: seq<(nat, Message)>): seq<nat> {
    seq(|handed|, i requires 0 <= i < |handed| => handed[i].0)
  }

  /** The waits that have not timed out, in order. */
  function Unexpired(ws: seq<nat>, expired: set<nat>): seq<nat> {
    if ws == [] then [] else
      Unexpired(ws[..|ws| - 1], expired) + if ws[|ws| - 1] in expired then [] else [ws[|ws| - 1]]
  }

  /** Messages leave in the order they came; queue and waiters are never both occupied; waits are served in order. */
  ghost predicate Conserves(s: Mail, waits: seq<nat>) {
    s.put == MessagesHanded(s.handed) + s.queue &&
    (s.queue == [] || s.waiters == []) &&
    WaitsHanded(s.handed) + s.waiters == Unexpired(waits, s.expired) &&
    s.expired <= Elements(waits)
  }

  lemma {:induction false} UnexpiredMembers(ws: seq<nat>, expired: set<nat>)
    ensures forall w :: w in Unexpired(ws, expired) <==> w in ws && w !in expired
    ensures Distinct(ws) ==> Distinct(Unexpired(ws, expired))
  {
    if ws == [] {
    } else {
      var front, last := ws[..|ws| - 1], ws[|ws| - 1];
      UnexpiredMembers(front, expired);
      if Distinct(ws) && last !in expired {
        assert last !in front;
        DistinctAppend(Unexpired(front, expired), [last]);
      }
    }
  }

  lemma {:induction false} UnexpiredFewer(ws: seq<nat>, expired: set<nat>, w: nat)
    requires Distinct(ws) && w !in expired
    ensures Unexpired(ws, expired + {w}) == Without(Unexpired(ws, expired), w)
  {
    if ws == [] {
    } else {
      var front, last := ws[..|ws| - 1], ws[|ws| - 1];
      UnexpiredFewer(front, expired, w);
      UnexpiredMembers(front, expired);
      var own := if last in expired then [] else [last];
      WithoutAppend(Unexpired(front, expired), own, w);
      WithoutAppend(Unexpired(front, expired), [], w);
      assert last !in front;
      assert Unexpired(front, expired) + [] == Unexpired(front, expired);
      assert Without([last], last) == [];
    }
  }

  lemma {:induction false} WithoutAppend(a: seq<nat>, b: seq<nat>, w: nat)
    ensures w in a ==> Without(a + b, w) == Without(a, w) + b
    ensures w !in a ==> Without(a + b, w) == a + Without(b, w)
  {
    if a == [] {
      assert a + b == b;
    } else {
      WithoutPrepend(a[0], a[1..], b, w);
      WithoutAppend(a[1..], b, w);
      assert a == [a[0]] + a[1..];
    }
  }

  lemma WithoutPrepend(x: nat, a: seq<nat>, b: seq<nat>, w: nat)
    ensures Without(([x] + a) + b, w) == if x == w then a + b else [x] + Without(a + b, w)
    ensures Without([x] + a, w) == if x == w then a else [x] + Without(a, w)
  {
    assert ([x] + a) + b == [x] + (a + b);
    assert ([x] + a)[1..] == a && ([x] + (a + b))[1..] == a + b;
  }

  /** Conservation over any run in which each wait is started once. */
  lemma {:induction false} RunConserves(ops: seq<Operation>)
    requires Distinct(WaitsOf(ops))
    ensures Conserves(RunOps(ops), WaitsOf(ops))
    ensures RunOps(ops).put == DeliveriesOf(ops)
  {
    if ops == [] {
    } else {
      var front, op := ops[..|ops| - 1], ops[|ops| - 1];
      var own := if op.Waiting? then [op.wait] else [];
      DistinctParts(WaitsOf(front), own);
      assert op.Waiting? ==> op.wait in Elements(own);
      RunConserves(front);
      StepConserves(RunOps(front), WaitsOf(front), op);
      assert WaitsOf(ops) == if op.Waiting? then WaitsOf(front) + [op.wait] else WaitsOf(front);
    }
  }

  lemma PutConserves(s: Mail, waits: seq<nat>, m: Message)
    requires Conserves(s, waits)
    ensures Conserves(Put(s, m), waits)
  {
    var s' := Put(s, m);
    if s.waiters != [] {
      assert WaitsHanded(s'.handed) == WaitsHanded(s.handed) + [s.waiters[0]];
      assert MessagesHanded(s'.handed) == MessagesHanded(s.handed) + [m];
    }
  }

  lemma TakeConserves(s: Mail, waits: seq<nat>, w: nat)
    requires Conserves(s, waits) && w !in waits
    ensures Conserves(Take(s, w), waits + [w])
  {
    var s' := Take(s, w);
    assert (waits + [w])[..|waits|] == waits;
    assert w !in s.expired;
    if s.queue != [] {
      assert WaitsHanded(s'.handed) == WaitsHanded(s.handed) + [w];
      assert MessagesHanded(s'.handed) == MessagesHanded(s.handed) + [s.queue[0]];
    }
  }

  lemma ExpireConserves(s: Mail, waits: seq<nat>, w: nat)
    requires Conserves(s, waits) && Distinct(waits)
    ensures Conserves(Expire(s, w), waits)
  {
    if w in s.waiters {
      UnexpiredMembers(waits, s.expired);
      var all := WaitsHanded(s.handed) + s.waiters;
      assert w in all && w in waits && w !in s.expired;
      DistinctParts(WaitsHanded(s.handed), s.waiters);
      assert w in Elements(s.waiters);
      WithoutAppend(WaitsHanded(s.handed), s.waiters, w);
      UnexpiredFewer(waits, s.expired, w);
    }
  }

  lemma StepConserves(s: Mail, waits: seq<nat>, op: Operation)
    requires Conserves(s, waits) && Distinct(waits) && (op.Waiting? ==> op.wait !in waits)
    ensures Conserves(Apply(s, op), if op.Waiting? then waits + [op.wait] else waits)
  {
    match op {
      case Delivery(m) => PutConserves(s, waits, m);
      case Waiting(w) => TakeConserves(s, waits, w);
      case Timeout(w) => ExpireConserves(s, waits, w);
    }
  }

  /** No wait gets two messages, and a wait that timed out gets none, now or later. */
  lemma WaitGetsAtMostOne(ops: seq<Operation>)
    requires Distinct(WaitsOf(ops))
    ensures Distinct(WaitsHanded(RunOps(ops).handed))
    ensures forall w :: w in RunOps(ops).expired ==> w !in WaitsHanded(RunOps(ops).handed) && w !in RunOps(ops).waiters
  {
    RunConserves(ops);
    var s := RunOps(ops);
    UnexpiredMembers(WaitsOf(ops), s.expired);
    DistinctParts(WaitsHanded(s.handed), s.waiters);
    forall w | w in s.expired ensures w !in WaitsHanded(s.handed) && w !in s.waiters {
      assert w !in WaitsHanded(s.handed) + s.waiters;
    }
  }

  /** Wait `w` was started and timed out afterwards. */
  ghost predicate TimedOutIn(ops: seq<Operation>, w: nat) {
    exists i, j :: 0 <= i < j < |ops| && ops[i] == Waiting(w) && ops[j] == Timeout(w)
  }

  lemma TimedOutMore(ops: seq<Operation>, last: Operation, w: nat)
    ensures TimedOutIn(ops + [last], w) <==> TimedOutIn(ops, w) || (last == Timeout(w) && Waiting(w) in ops)
  {
    var all := ops + [last];
    if TimedOutIn(all, w) {
      var i, j :| 0 <= i < j < |all| && all[i] == Waiting(w) && all[j] == Timeout(w);
      assert ops[i] == Waiting(w);
      assert j < |ops| ==> ops[j] == Timeout(w);
    }
    if TimedOutIn(ops, w) {
      var i, j :| 0 <= i < j < |ops| && ops[i] == Waiting(w) && ops[j] == Timeout(w);
      assert all[i] == Waiting(w) && all[j] == Timeout(w);
    }
    if last == Timeout(w) && Waiting(w) in ops {
      var i :| 0 <= i < |ops| && ops[i] == Waiting(w);
      assert all[i] == Waiting(w) && all[|ops|] == Timeout(w);
    }
  }

  lemma {:induction false} WaitsOfMembers(ops: seq<Operation>, w: nat)
    ensures w in WaitsOf(ops) <==> Waiting(w) in ops
  {
    if ops == [] {
    } else {
      WaitsOfMembers(ops[..|ops| - 1], w);
      assert ops == ops[..|ops| - 1] + [ops[|ops| - 1]];
    }
  }

  /** A waiter is waiting, and gone from the line once taken out of it. */
  lemma ExpiredLeavesLine(s: Mail, waits: seq<nat>, w: nat)
    requires Conserves(s, waits) && Distinct(waits)
    ensures w !in Expire(s, w).waiters
  {
    ExpireConserves(s, waits, w);
    UnexpiredMembers(waits, Expire(s, w).expired);
    if w in s.waiters {
      assert w !in WaitsHanded(Expire(s, w).handed) + Expire(s, w).waiters;
    }
  }

  /**
   What timeouts do: only a wait that was started and timed out afterwards is ever given up, and no such wait is in
   line any more, nor is it without an end: it was served or is given up.
   */
  lemma {:induction false} TimeoutsEndWaits(ops: seq<Operation>, w: nat)
    requires Distinct(WaitsOf(ops))
    ensures w in RunOps(ops).expired ==> TimedOutIn(ops, w)
    ensures TimedOutIn(ops, w) ==>
              w !in RunOps(ops).waiters && (w in WaitsHanded(RunOps(ops).handed) || w in RunOps(ops).expired)
  {
    if ops == [] {
    } else {
      var front, op := ops[..|ops| - 1], ops[|ops| - 1];
      assert ops == front + [op];
      DistinctParts(WaitsOf(front), if op.Waiting? then [op.wait] else []);
      TimeoutsEndWaits(front, w);
      TimedOutMore(front, op, w);
      WaitsOfMembers(front, w);
      RunConserves(front);
      RunConserves(ops);
      EndOfWait(ops, w);
      if op == Timeout(w) {
        ExpiredLeavesLine(RunOps(front), WaitsOf(front), w);
        UnexpiredMembers(WaitsOf(front), RunOps(front).expired);
        if w in RunOps(front).waiters {
          assert w in WaitsHanded(RunOps(front).handed) + RunOps(front).waiters;
        }
      } else if op == Waiting(w) {
        assert w in Elements([op.wait]);
      }
      OthersStay(RunOps(front), op, w);
    }
  }

  /** A wait that was started was served, is in line, or is given up. */
  lemma EndOfWait(ops: seq<Operation>, w: nat)
    requires Distinct(WaitsOf(ops))
    ensures w in WaitsOf(ops) <==>
              w in WaitsHanded(RunOps(ops).handed) || w in RunOps(ops).waiters || w in RunOps(ops).expired
  {
    RunConserves(ops);
    var s := RunOps(ops);
    UnexpiredMembers(WaitsOf(ops), s.expired);
    assert w in WaitsHanded(s.handed) + s.waiters <==> w in WaitsHanded(s.handed) || w in s.waiters;
  }

  lemma OthersStay(s: Mail, op: Operation, w: nat)
    ensures op != Timeout(w) ==> (w in Apply(s, op).expired <==> w in s.expired)
    ensures op != Waiting(w) && w !in s.waiters ==> w !in Apply(s, op).waiters
  {
    match op {
      case Timeout(x) => WithoutMembers(s.waiters, x);
      case _ =>
    }
  }

  lemma {:induction false} WithoutMembers(ws: seq<nat>, x: nat)
    ensures forall w :: w in Without(ws, x) ==> w in ws
  {
    if ws == [] || ws[0] == x {
    } else {
      WithoutMembers(ws[1..], x);
    }
  }
}
