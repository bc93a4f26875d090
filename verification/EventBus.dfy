/** The observability event bus: a bounded replay buffer, cursors, and live subscribers. */
module EventBus {
  import opened Decimals
  import opened Selections
  import opened TraceStore
  import opened Wrappers

  datatype Kind = Heartbeat | Resync | Other

  /** An event; `traceId` is the trace named in its data, if any. */
  datatype Event = Event(id: string, kind: Kind, traceId: Option<string>)

  datatype Input = Input(id: Option<string>, kind: Kind, traceId: Option<string>)

  predicate MatchesTraceFilter(e: Event, filter: Option<string>) {
    filter.None? || filter.value == "" || e.kind.Heartbeat? ||
    (if e.kind.Resync? then e.traceId.None? || e.traceId == filter else e.traceId == filter)
  }

  function Matching(events: seq<Event>, filter: Option<string>): seq<Event> {
    if events == [] then [] else
      Matching(events[..|events| - 1], filter) +
      if MatchesTraceFilter(events[|events| - 1], filter) then [events[|events| - 1]] else []
  }

  /** The value of the bus; `received` is what each subscriber's listener has been called with. */
  datatype Bus = Bus(maxEvents: int, events: seq<Event>, subscribers: map<nat, Option<string>>,
                     received: map<nat, seq<Event>>,
                     nextSequence: nat, nextSubscriber: nat, closed: bool)

  function Fresh(maxEvents: int): Bus {
    Bus(maxEvents, [], map[], map[], 1, 0, false)
  }

  /** Call the listener of every subscriber whose filter the event passes. */
  function Notify(subscribers: map<nat, Option<string>>, received: map<nat, seq<Event>>,
                  e: Event): map<nat, seq<Event>> {
    map s | s in received ::
      received[s] + if s in subscribers && MatchesTraceFilter(e, subscribers[s]) then [e] else []
  }

  function StoreEvent(b: Bus, e: Event, notify: bool): Bus {
    b.(events := Tail(b.events + [e], b.maxEvents),
       received := if notify then Notify(b.subscribers, b.received, e) else b.received)
  }

  function EventOf(b: Bus, input: Input): Event {
    Event(if input.id.Some? then input.id.value else Decimal(b.nextSequence), input.kind, input.traceId)
  }

  /** The event tells what was given, under the given id or else under the next number. */
  ghost predicate IsStamped(e: Event, input: Input, next: nat) {
    e.kind == input.kind && e.traceId == input.traceId &&
    (input.id.Some? ==> e.id == input.id.value) && (input.id.None? ==> ParseDecimal(e.id) == Some(next))
  }

  lemma EventIsStamped(b: Bus, input: Input)
    ensures IsStamped(EventOf(b, input), input, b.nextSequence)
  {
    ParseOfDecimal(b.nextSequence);
  }

  /** Publishing, or recording without notifying; a closed bus refuses both. */
  function Emit(b: Bus, input: Input, notify: bool): Bus {
    if b.closed then b else
      StoreEvent(b, EventOf(b, input), notify).(nextSequence := if input.id.Some? then b.nextSequence
                                                                else b.nextSequence + 1)
  }

  function Subscribe(b: Bus, filter: Option<string>): Bus {
    b.(subscribers := b.subscribers[b.nextSubscriber := filter], received := b.received[b.nextSubscriber := []],
       nextSubscriber := b.nextSubscriber + 1)
  }

  function Unsubscribe(b: Bus, s: nat): Bus {
    b.(subscribers := b.subscribers - {s})
  }

  function Close(b: Bus): Bus {
    b.(closed := true, subscribers := map[])
  }

  /** The position of the first event with this id. */
  function FindEvent(events: seq<Event>, id: string): (i: Option<nat>)
    ensures i.Some? ==>
              i.value < |events| && events[i.value].id == id && forall j :: 0 <= j < i.value ==> events[j].id != id
    ensures i.None? ==> forall e :: e in events ==> e.id != id
  {
    if events == [] then None
    else if events[0].id == id then Some(0)
    else
      var rest := FindEvent(events[1..], id);
      assert events == [events[0]] + events[1..];
      if rest.None? then None else Some(rest.value + 1)
  }

  /** What is replayed after a cursor; an unknown or empty cursor replays the whole buffer. */
  function Replay(b: Bus, after: Option<string>, filter: Option<string>): seq<Event> {
    var start := if after.None? || after.value == "" then 0
                 else match FindEvent(b.events, after.value) case None => 0 case Some(i) => i + 1;
    Matching(b.events[start..], filter)
  }

  predicate HasEvent(b: Bus, id: string) {
    exists e :: e in b.events && e.id == id
  }

  class InMemoryObservabilityEventBus {
    const maxEvents: int
    var events: seq<Event>
    var subscribers: map<nat, Option<string>>
    var nextSequence: nat
    var nextSubscriber: nat
    var closed: bool
    ghost var received: map<nat, seq<Event>>

    ghost function View(): Bus
      reads this
    {
      Bus(maxEvents, events, subscribers, received, nextSequence, nextSubscriber, closed)
    }

    constructor (maxEvents: int)
      ensures View() == Fresh(maxEvents)
    {
      this.maxEvents := maxEvents;
      events, subscribers, nextSequence, nextSubscriber, closed, received := [], map[], 1, 0, false, map[];
    }

    method StoreAndNotify(event: Event, notifySubscribers: bool)
      modifies this
      ensures View() == StoreEvent(old(View()), event, notifySubscribers)
    {
      events := events + [event];
      if |events| > maxEvents {
        var surplus := |events| - maxEvents;
        events := events[if surplus > |events| then |events| else surplus..];
      }
      if notifySubscribers {
        received := Notify(subscribers, received, event);
      }
    }

    method Publish(input: Input) returns (event: Option<Event>)
      modifies this
      ensures View() == Emit(old(View()), input, true)
      ensures event == if old(closed) then None else Some(EventOf(old(View()), input))
      ensures event.Some? ==> IsStamped(event.value, input, old(nextSequence))
    {
      event := EmitEvent(input, true);
    }

    method Record(input: Input) returns (event: Option<Event>)
      modifies this
      ensures View() == Emit(old(View()), input, false)
      ensures event == if old(closed) then None else Some(EventOf(old(View()), input))
      ensures event.Some? ==> IsStamped(event.value, input, old(nextSequence))
    {
      event := EmitEvent(input, false);
    }

    method EmitEvent(input: Input, notify: bool) returns (event: Option<Event>)
      modifies this
      ensures View() == Emit(old(View()), input, notify)
      ensures event == if old(closed) then None else Some(EventOf(old(View()), input))
      ensures event.Some? ==> IsStamped(event.value, input, old(nextSequence))
    {
      if closed {
        return None;
      }
      EventIsStamped(View(), input);
      var id := if input.id.Some? then input.id.value else Decimal(nextSequence);
      if input.id.None? {
        nextSequence := nextSequence + 1;
      }
      var stored := Event(id, input.kind, input.traceId);
      StoreAndNotify(stored, notify);
      event := Some(stored);
    }

    method AddSubscriber(filter: Option<string>) returns (s: nat)
      modifies this
      ensures s == old(nextSubscriber) && View() == Subscribe(old(View()), filter)
    {
      s := nextSubscriber;
      subscribers := subscribers[s := filter];
      received := received[s := []];
      nextSubscriber := nextSubscriber + 1;
    }

    method RemoveSubscriber(s: nat)
      modifies this
      ensures View() == Unsubscribe(old(View()), s)
    {
      subscribers := subscribers - {s};
    }

    method CloseBus()
      modifies this
      ensures View() == Close(old(View()))
    {
      closed := true;
      subscribers := map[];
    }

    /**
     A stream connects: with a cursor the buffer does not hold a resync event is published first, which a closed bus
     refuses, and nothing is replayed; otherwise the buffer is replayed. The subscription starts after either.
     */
    method Connect(after: Option<string>, traceId: Option<string>) returns (ok: bool, written: seq<Event>, s: nat)
      modifies this
      ensures ok == !(LostCursor(old(View()), after) && old(closed)) && s == old(nextSubscriber)
      ensures !ok ==> View() == old(View())
      ensures ok ==> View() == Connected(old(View()), after, traceId)
      ensures written == if LostCursor(old(View()), after) then [] else Replay(old(View()), after, traceId)
    {
      written, s := [], nextSubscriber;
      if after.Some? && after.value != "" && FindEvent(events, after.value).None? {
        var event := Publish(Input(None, Resync, traceId));
        if event.None? {
          return false, [], s;
        }
      } else {
        var start := if after.None? || after.value == "" then 0
                     else match FindEvent(events, after.value) case None => 0 case Some(i) => i + 1;
        written := Matching(events[start..], traceId);
      }
      s := AddSubscriber(traceId);
      ok := true;
    }
  }

  predicate LostCursor(b: Bus, after: Option<string>) {
    after.Some? && after.value != "" && !HasEvent(b, after.value)
  }

  /** The bus once a stream has connected. */
  function Connected(b: Bus, after: Option<string>, filter: Option<string>): Bus {
    Subscribe(if LostCursor(b, after) then Emit(b, Input(None, Resync, filter), true) else b, filter)
  }

  // ----- Runs with ids assigned by the bus -----

  datatype Operation =
    | Publishing(kind: Kind, traceId: Option<string>)
    | Recording(kind: Kind, traceId: Option<string>)
    | Connecting(after: Option<string>, filter: Option<string>)
    | Leaving(subscriber: nat)
    | Closing

  /** The bus with everything it ever stored and whether subscribers were notified of it. */
  datatype History = History(bus: Bus, stored: seq<(Event, bool)>)

  function Emitting(h: History, input: Input, notify: bool): History {
    History(Emit(h.bus, input, notify), if h.bus.closed then h.stored else h.stored + [(EventOf(h.bus, input), notify)])
  }

  function Step(h: History, op: Operation): History {
    match op
    case Publishing(kind, traceId) => Emitting(h, Input(None, kind, traceId), true)
    case Recording(kind, traceId) => Emitting(h, Input(None, kind, traceId), false)
    case Connecting(after, filter) =>
      var lost := LostCursor(h.bus, after);
      if lost && h.bus.closed then h else
        var h' := if lost then Emitting(h, Input(None, Resync, filter), true) else h;
        h'.(bus := Subscribe(h'.bus, filter))
    case Leaving(s) => h.(bus := Unsubscribe(h.bus, s))
    case Closing => h.(bus := Close(h.bus))
  }

  function Run(h: History, ops: seq<Operation>): History {
    if ops == [] then h else Step(Run(h, ops[..|ops| - 1]), ops[|ops| - 1])
  }

  function Start(maxEvents: int): History {
    History(Fresh(maxEvents), [])
  }

  function EventsOf(stored: seq<(Event, bool)>): seq<Event> {
    seq(|stored|, i requires 0 <= i < |stored| => stored[i].0)
  }

  /** The events subscribers were notified of. */
  function Published(stored: seq<(Event, bool)>): seq<Event> {
    if stored == [] then [] else
      Published(stored[..|stored| - 1]) + if stored[|stored| - 1].1 then [stored[|stored| - 1].0] else []
  }

  /** The buffer is the tail of all stored events, which are numbered in decimal from one. */
  ghost predicate HistoryOk(h: History) {
    h.bus.events == Tail(EventsOf(h.stored), h.bus.maxEvents) &&
    h.bus.nextSequence == |h.stored| + 1 &&
    (forall i :: 0 <= i < |h.stored| ==> h.stored[i].0.id == Decimal(i + 1)) &&
    h.bus.subscribers.Keys <= h.bus.received.Keys &&
    forall s :: s in h.bus.received ==> s < h.bus.nextSubscriber
  }

  lemma EmittingOk(h: History, kind: Kind, traceId: Option<string>, notify: bool)
    requires HistoryOk(h)
    ensures HistoryOk(Emitting(h, Input(None, kind, traceId), notify))
  {
    var h' := Emitting(h, Input(None, kind, traceId), notify);
    if !h.bus.closed {
      var e := EventOf(h.bus, Input(None, kind, traceId));
      assert EventsOf(h'.stored) == EventsOf(h.stored) + [e];
      TailOfTail(EventsOf(h.stored), h.bus.maxEvents, e);
    }
  }

  lemma TailOfTail<T>(s: seq<T>, n: int, x: T)
    ensures Tail(Tail(s, n) + [x], n) == Tail(s + [x], n)
  {
  }

  lemma {:induction false} RunOk(h: History, ops: seq<Operation>)
    requires HistoryOk(h)
    ensures HistoryOk(Run(h, ops)) && Run(h, ops).bus.maxEvents == h.bus.maxEvents
  {
    if ops == [] {
    } else {
      var op := ops[|ops| - 1];
      RunOk(h, ops[..|ops| - 1]);
      var before := Run(h, ops[..|ops| - 1]);
      match op {
        case Publishing(kind, traceId) => EmittingOk(before, kind, traceId, true);
        case Recording(kind, traceId) => EmittingOk(before, kind, traceId, false);
        case Connecting(after, filter) =>
          if LostCursor(before.bus, after) {
            EmittingOk(before, Resync, filter, true);
          }
        case Leaving(s) =>
        case Closing =>
      }
    }
  }

  /** Every state a bus can be in meets the conditions of the results below. */
  lemma ReachableOk(maxEvents: int, ops: seq<Operation>)
    ensures HistoryOk(Run(Start(maxEvents), ops)) && Run(Start(maxEvents), ops).bus.maxEvents == maxEvents
  {
    assert HistoryOk(Start(maxEvents));
    RunOk(Start(maxEvents), ops);
  }

  /** Event number `k`, counted from one, is among the last `maxEvents` stored. */
  ghost predicate Retained(h: History, k: nat) {
    0 < k && |h.stored| - h.bus.maxEvents < k <= |h.stored|
  }

  /** How many events have fallen out of the buffer. */
  function Dropped(h: History): int {
    |h.stored| - |h.bus.events|
  }

  lemma BufferAt(h: History, i: nat)
    requires HistoryOk(h) && i < |h.bus.events|
    ensures Dropped(h) >= 0 && Retained(h, Dropped(h) + i + 1)
    ensures h.bus.events[i] == h.stored[Dropped(h) + i].0 && h.bus.events[i].id == Decimal(Dropped(h) + i + 1)
  {
    var all := EventsOf(h.stored);
    assert h.bus.events[i] == all[Dropped(h) + i];
  }

  lemma RetainedAt(h: History, k: nat)
    requires HistoryOk(h) && Retained(h, k)
    ensures 0 <= k - 1 - Dropped(h) < |h.bus.events| && h.bus.events[k - 1 - Dropped(h)].id == Decimal(k)
  {
    BufferAt(h, k - 1 - Dropped(h));
  }

  /** The buffer knows exactly the ids of the last `maxEvents` events. */
  lemma HasEventExactly(h: History, id: string)
    requires HistoryOk(h)
    ensures HasEvent(h.bus, id) <==> exists k :: Retained(h, k) && id == Decimal(k)
  {
    if HasEvent(h.bus, id) {
      var i :| 0 <= i < |h.bus.events| && h.bus.events[i].id == id;
      BufferAt(h, i);
    }
    if k: nat :| Retained(h, k) && id == Decimal(k) {
      RetainedAt(h, k);
      assert h.bus.events[k - 1 - Dropped(h)] in h.bus.events;
    }
  }

  lemma ReplayAt(b: Bus, cursor: string, i: nat, filter: Option<string>)
    requires cursor != "" && FindEvent(b.events, cursor) == Some(i)
    ensures i < |b.events| && Replay(b, Some(cursor), filter) == Matching(b.events[i + 1..], filter)
  {
  }

  /** Replay from a retained cursor gives the matching events stored after it. */
  lemma {:induction false} ReplayAfterCursor(h: History, k: nat, filter: Option<string>)
    requires HistoryOk(h) && Retained(h, k)
    ensures !LostCursor(h.bus, Some(Decimal(k)))
    ensures Replay(h.bus, Some(Decimal(k)), filter) == Matching(EventsOf(h.stored[k..]), filter)
  {
    RetainedAt(h, k);
    DecimalNotEmpty(k);
    var found := CursorIndex(h, k);
    BufferAfter(h, k);
    ReplayAt(h.bus, Decimal(k), found, filter);
  }

  lemma CursorIndex(h: History, k: nat) returns (i: nat)
    requires HistoryOk(h) && Retained(h, k)
    ensures FindEvent(h.bus.events, Decimal(k)) == Some(i) && i == k - 1 - Dropped(h)
    ensures HasEvent(h.bus, Decimal(k))
  {
    RetainedAt(h, k);
    var at := k - 1 - Dropped(h);
    assert h.bus.events[at] in h.bus.events;
    i := FindEvent(h.bus.events, Decimal(k)).value;
    BufferAt(h, i);
    DecimalInjective(Dropped(h) + i + 1, k);
  }

  lemma BufferAfter(h: History, k: nat)
    requires HistoryOk(h) && Retained(h, k)
    ensures 0 <= k - Dropped(h) <= |h.bus.events| && h.bus.events[k - Dropped(h)..] == EventsOf(h.stored[k..])
  {
    RetainedAt(h, k);
    var rest, later := h.bus.events[k - Dropped(h)..], EventsOf(h.stored[k..]);
    assert |rest| == |later|;
    forall i | 0 <= i < |rest| ensures rest[i] == later[i] {
      BufferAt(h, k - Dropped(h) + i);
      assert later[i] == h.stored[k + i].0;
    }
  }

  // ----- Resuming a stream -----

  lemma {:induction false} MatchingConcat(a: seq<Event>, b: seq<Event>, filter: Option<string>)
    ensures Matching(a + b, filter) == Matching(a, filter) + Matching(b, filter)
  {
    if b == [] {
      assert a + b == a;
    } else {
      assert (a + b)[..|a + b| - 1] == a + b[..|b| - 1];
      MatchingConcat(a, b[..|b| - 1], filter);
    }
  }

  /** Nobody takes the subscription away; after closing nothing is stored any more. */
  ghost predicate Keeps(h: History, s: nat, filter: Option<string>) {
    s in h.bus.received && (h.bus.closed || (s in h.bus.subscribers && h.bus.subscribers[s] == filter))
  }

  /** Subscriber `s` has received `before` and then the matching events published after the first `n` stored. */
  ghost predicate Receives(h: History, s: nat, filter: Option<string>, n: nat, before: seq<Event>) {
    s in h.bus.received && n <= |h.stored| && h.bus.received[s] == before + Matching(Published(h.stored[n..]), filter)
  }

  /** A subscriber receives exactly the matching events published while it is subscribed, in order. */
  lemma {:induction false} LiveDelivery(h: History, ops: seq<Operation>, s: nat, filter: Option<string>)
    requires HistoryOk(h) && Keeps(h, s, filter) && Leaving(s) !in ops
    ensures HistoryOk(Run(h, ops)) && Keeps(Run(h, ops), s, filter) && h.stored <= Run(h, ops).stored
    ensures Receives(Run(h, ops), s, filter, |h.stored|, h.bus.received[s])
  {
    if ops == [] {
      assert h.stored[|h.stored|..] == [];
    } else {
      var front, op := ops[..|ops| - 1], ops[|ops| - 1];
      LiveDelivery(h, front, s, filter);
      RunOk(h, ops);
      LiveStep(Run(h, front), op, |h.stored|, s, filter, h.bus.received[s]);
    }
  }

  lemma LiveStep(h: History, op: Operation, n: nat, s: nat, filter: Option<string>, before: seq<Event>)
    requires HistoryOk(h) && Keeps(h, s, filter) && op != Leaving(s) && Receives(h, s, filter, n, before)
    ensures Keeps(Step(h, op), s, filter) && h.stored <= Step(h, op).stored &&
            Receives(Step(h, op), s, filter, n, before)
  {
    match op {
      case Publishing(kind, traceId) => LiveEmit(h, kind, traceId, true, n, s, filter, before);
      case Recording(kind, traceId) => LiveEmit(h, kind, traceId, false, n, s, filter, before);
      case Connecting(after, other) =>
        if LostCursor(h.bus, after) {
          LiveEmit(h, Resync, other, true, n, s, filter, before);
        }
      case Leaving(_) =>
      case Closing =>
    }
  }

  lemma LiveEmit(h: History, kind: Kind, traceId: Option<string>, notify: bool, n: nat, s: nat,
                 filter: Option<string>, before: seq<Event>)
    requires Keeps(h, s, filter) && Receives(h, s, filter, n, before)
    ensures var h' := Emitting(h, Input(None, kind, traceId), notify);
            Keeps(h', s, filter) && h.stored <= h'.stored && h'.bus.nextSubscriber == h.bus.nextSubscriber &&
            Receives(h', s, filter, n, before)
  {
    if !h.bus.closed {
      var e := EventOf(h.bus, Input(None, kind, traceId));
      PublishedGrows(h.stored, n, e, notify, filter);
      EmitReaches(h, kind, traceId, notify, s, filter);
      Regroup(before, Matching(Published(h.stored[n..]), filter), if notify then Matching([e], filter) else []);
    }
  }

  lemma Regroup<T>(a: seq<T>, b: seq<T>, c: seq<T>)
    ensures (a + b) + c == a + (b + c)
  {
  }

  lemma PublishedGrows(stored: seq<(Event, bool)>, n: nat, e: Event, notify: bool, filter: Option<string>)
    requires n <= |stored|
    ensures Matching(Published((stored + [(e, notify)])[n..]), filter) ==
            Matching(Published(stored[n..]), filter) + if notify then Matching([e], filter) else []
  {
    var more := (stored + [(e, notify)])[n..];
    assert more[..|more| - 1] == stored[n..];
    MatchingConcat(Published(stored[n..]), if notify then [e] else [], filter);
    assert Published(more) == Published(stored[n..]) + if notify then [e] else [];
  }

  lemma EmitReaches(h: History, kind: Kind, traceId: Option<string>, notify: bool, s: nat, filter: Option<string>)
    requires s in h.bus.received && s in h.bus.subscribers && h.bus.subscribers[s] == filter && !h.bus.closed
    ensures var h' := Emitting(h, Input(None, kind, traceId), notify);
            var e := EventOf(h.bus, Input(None, kind, traceId));
            s in h'.bus.received && h'.bus.received[s] == h.bus.received[s] +
                                                          if notify then Matching([e], filter) else []
  {
    var e := EventOf(h.bus, Input(None, kind, traceId));
    assert Matching([e], filter) == if MatchesTraceFilter(e, filter) then [e] else [] by {
      assert [e][..0] == [];
    }
  }

  /** From the joined state on, what was written and what is received make up the stored events after the cursor. */
  lemma {:induction false} ResumeJoined(h: History, joined: History, after: seq<Operation>, k: nat, s: nat,
                                        filter: Option<string>)
    requires k <= |h.stored| && joined.stored == h.stored && HistoryOk(joined) && Keeps(joined, s, filter)
    requires joined.bus.received[s] == [] && Leaving(s) !in after
    ensures var h' := Run(joined, after);
            h.stored <= h'.stored && s in h'.bus.received &&
            Matching(EventsOf(h.stored[k..]), filter) + h'.bus.received[s] ==
              Matching(EventsOf(h'.stored[k..|h.stored|]) + Published(h'.stored[|h.stored|..]), filter)
  {
    LiveDelivery(joined, after, s, filter);
    WrittenThenReceived(h.stored, Run(joined, after).stored, k, filter);
  }

  /**
   Resuming is exactly once. A stream that reconnects with a retained cursor, that of event `k`, when `n` events
   are stored is written the matching events `k+1..n`, and then receives exactly the matching events published
   after `n`.
   */
  lemma ResumeExactlyOnce(h: History, after: seq<Operation>, k: nat, cursor: string, filter: Option<string>)
    requires HistoryOk(h) && Retained(h, k) && cursor == Decimal(k) && Leaving(h.bus.nextSubscriber) !in after
    ensures var h' := Run(Step(h, Connecting(Some(cursor), filter)), after);
            var s := h.bus.nextSubscriber;
            h.stored <= h'.stored && s in h'.bus.received &&
            Replay(h.bus, Some(cursor), filter) + h'.bus.received[s] ==
              Matching(EventsOf(h'.stored[k..|h.stored|]) + Published(h'.stored[|h.stored|..]), filter)
  {
    ReplayAfterCursor(h, k, filter);
    ConnectJoins(h, Some(cursor), filter);
    ResumeJoined(h, Step(h, Connecting(Some(cursor), filter)), after, k, h.bus.nextSubscriber, filter);
  }

  lemma WrittenThenReceived(stored: seq<(Event, bool)>, later: seq<(Event, bool)>, k: nat, filter: Option<string>)
    requires k <= |stored| && stored <= later
    ensures Matching(EventsOf(stored[k..]), filter) + Matching(Published(later[|stored|..]), filter) ==
            Matching(EventsOf(later[k..|stored|]) + Published(later[|stored|..]), filter)
  {
    assert later[k..|stored|] == stored[k..];
    MatchingConcat(EventsOf(stored[k..]), Published(later[|stored|..]), filter);
  }

  lemma ConnectJoins(h: History, after: Option<string>, filter: Option<string>)
    requires HistoryOk(h) && !(LostCursor(h.bus, after) && h.bus.closed)
    ensures var joined, s := Step(h, Connecting(after, filter)), h.bus.nextSubscriber;
            HistoryOk(joined) && Keeps(joined, s, filter) && joined.bus.received[s] == [] &&
              h.stored <= joined.stored &&
            |joined.stored| == |h.stored| + if LostCursor(h.bus, after) then 1 else 0
  {
    if LostCursor(h.bus, after) {
      EmittingOk(h, Resync, filter, true);
    }
  }

  /** No event is stored twice under one id. */
  lemma StoredIdsDistinct(h: History, i: nat, j: nat)
    requires HistoryOk(h) && i < j < |h.stored|
    ensures h.stored[i].0.id != h.stored[j].0.id
  {
    if Decimal(i + 1) == Decimal(j + 1) {
      DecimalInjective(i + 1, j + 1);
    }
  }

  /**
   A stream whose cursor is lost never gets the resync event published for it: the event is stored before the
   subscription starts, nothing is replayed, and the subscription delivers only what is published later.
   */
  lemma LostCursorMissesItsResync(h: History, after: seq<Operation>, cursor: string, filter: Option<string>)
    requires HistoryOk(h) && LostCursor(h.bus, Some(cursor)) && !h.bus.closed && Leaving(h.bus.nextSubscriber) !in after
    ensures var s, n := h.bus.nextSubscriber, |h.stored|;
            var h' := Run(Step(h, Connecting(Some(cursor), filter)), after);
            n < |h'.stored| && h'.stored[n].0.kind == Resync && s in h'.bus.received &&
            h'.bus.received[s] == Matching(Published(h'.stored[n + 1..]), filter) &&
            forall e :: e in h'.bus.received[s] ==> e.id != h'.stored[n].0.id
  {
    var n := |h.stored|;
    var s, h' := AfterLostCursor(h, after, cursor, filter);
    forall e | e in h'.bus.received[s] ensures e.id != h'.stored[n].0.id {
      LaterId(h', n, filter, e);
    }
  }

  /**
   Such streams exist: on a bus that keeps one event, a stream that comes back with the cursor of the first of two
   events finds it lost, and has received nothing although the resync event was stored for it.
   */
  lemma LostCursorStream() returns (h: History, cursor: string, s: nat)
    ensures h == Run(Start(1), [Publishing(Other, None), Publishing(Other, None)])
    ensures |h.stored| == 2 && cursor == h.stored[0].0.id
    ensures LostCursor(h.bus, Some(cursor)) && s == h.bus.nextSubscriber
    ensures var h' := Step(h, Connecting(Some(cursor), None));
            |h'.stored| == 3 && h'.stored[2].0.kind == Resync && s in h'.bus.received && h'.bus.received[s] == []
  {
    h, cursor := Run(Start(1), [Publishing(Other, None), Publishing(Other, None)]), Decimal(1);
    var op := Publishing(Other, None);
    s := h.bus.nextSubscriber;
    RunOfTwo(Start(1), op, op);
    TwoEvents(op, h);
    FirstOfTwoIsLost(h);
    LostCursorGrows(h, cursor, None);
    LostCursorMissesItsResync(h, [], cursor, None);
  }

  lemma RunOfTwo(h: History, first: Operation, second: Operation)
    ensures Run(h, [first, second]) == Step(Step(h, first), second)
  {
    assert [first, second][..1] == [first] && [first][..0] == [];
    assert Run(h, [first]) == Step(h, first);
  }

  lemma TwoEvents(op: Operation, h: History)
    requires op == Publishing(Other, None) && h == Step(Step(Start(1), op), op)
    ensures HistoryOk(h) && |h.stored| == 2 && !h.bus.closed && h.bus.maxEvents == 1
  {
    assert HistoryOk(Start(1));
    EmittingOk(Start(1), Other, None, true);
    EmittingOk(Step(Start(1), op), Other, None, true);
  }

  lemma FirstOfTwoIsLost(h: History)
    requires HistoryOk(h) && |h.stored| == 2 && h.bus.maxEvents == 1
    ensures h.stored[0].0.id == Decimal(1) && LostCursor(h.bus, Some(Decimal(1)))
  {
    DecimalNotEmpty(1);
    HasEventExactly(h, Decimal(1));
    if Decimal(1) == Decimal(2) {
      DecimalInjective(1, 2);
    }
  }

  lemma LostCursorGrows(h: History, cursor: string, filter: Option<string>)
    requires LostCursor(h.bus, Some(cursor)) && !h.bus.closed
    ensures |Step(h, Connecting(Some(cursor), filter)).stored| == |h.stored| + 1
  {
  }

  lemma AfterLostCursor(h: History, after: seq<Operation>, cursor: string, filter: Option<string>)
    returns (s: nat, h': History)
    requires HistoryOk(h) && LostCursor(h.bus, Some(cursor)) && !h.bus.closed && Leaving(h.bus.nextSubscriber) !in after
    ensures s == h.bus.nextSubscriber && h' == Run(Step(h, Connecting(Some(cursor), filter)), after)
    ensures HistoryOk(h') && |h.stored| < |h'.stored| && h'.stored[|h.stored|].0.kind == Resync
    ensures s in h'.bus.received && h'.bus.received[s] == Matching(Published(h'.stored[|h.stored| + 1..]), filter)
  {
    s := h.bus.nextSubscriber;
    var joined := Step(h, Connecting(Some(cursor), filter));
    h' := Run(joined, after);
    ConnectJoins(h, Some(cursor), filter);
    LiveDelivery(joined, after, s, filter);
    assert joined.stored[|h.stored|] == h'.stored[|h.stored|];
  }

  lemma LaterId(h: History, n: nat, filter: Option<string>, e: Event)
    requires HistoryOk(h) && n < |h.stored| && e in Matching(Published(h.stored[n + 1..]), filter)
    ensures e.id != h.stored[n].0.id
  {
    MatchingMember(Published(h.stored[n + 1..]), filter, e);
    PublishedMember(h.stored[n + 1..], e);
    var i :| 0 <= i < |h.stored[n + 1..]| && h.stored[n + 1..][i].0 == e;
    assert h.stored[n + 1 + i].0 == e;
    if Decimal(n + 1) == Decimal(n + 1 + i + 1) {
      DecimalInjective(n + 1, n + 1 + i + 1);
    }
  }

  lemma {:induction false} MatchingMember(events: seq<Event>, filter: Option<string>, e: Event)
    ensures e in Matching(events, filter) <==> e in events && MatchesTraceFilter(e, filter)
  {
    if events == [] {
    } else {
      MatchingMember(events[..|events| - 1], filter, e);
    }
  }

  lemma {:induction false} PublishedMember(stored: seq<(Event, bool)>, e: Event)
    ensures e in Published(stored) ==> exists i :: 0 <= i < |stored| && stored[i].0 == e && stored[i].1
  {
    if stored == [] {
    } else {
      PublishedMember(stored[..|stored| - 1], e);
      if e == stored[|stored| - 1].0 && stored[|stored| - 1].1 {
        assert stored[|stored| - 1].0 == e;
      }
    }
  }

  // ----- What a filtered stream gets -----

  /** A stream gets everything, or of its trace `t`: heartbeats, what names `t`, and resyncs that name no trace. */
  ghost predicate Wanted(e: Event, filter: Option<string>) {
    filter == None || filter == Some("") ||
    e.kind == Heartbeat || e.traceId == filter || (e.kind == Resync && e.traceId == None)
  }

  lemma FilterMeans(e: Event, filter: Option<string>)
    ensures MatchesTraceFilter(e, filter) <==> Wanted(e, filter)
  {
  }

  /** `got` holds each wanted event once, in order, and nothing else. */
  ghost predicate GetsWanted(events: seq<Event>, got: seq<Event>, filter: Option<string>, idx: seq<nat>) {
    Selects(events, got, idx) && forall j: nat :: j < |events| ==> (j in idx <==> Wanted(events[j], filter))
  }

  lemma GetsMore(events: seq<Event>, got: seq<Event>, filter: Option<string>, idx: seq<nat>, e: Event)
    requires GetsWanted(events, got, filter, idx)
    ensures Wanted(e, filter) ==> GetsWanted(events + [e], got + [e], filter, idx + [|events|])
    ensures !Wanted(e, filter) ==> GetsWanted(events + [e], got, filter, idx)
  {
    SelectsMore(events, got, idx, e);
    assert forall j :: j in idx ==> j < |events|;
  }

  lemma {:induction false} MatchingGets(events: seq<Event>, filter: Option<string>) returns (idx: seq<nat>)
    ensures GetsWanted(events, Matching(events, filter), filter, idx)
  {
    if events == [] {
      idx := [];
    } else {
      var front, e := events[..|events| - 1], events[|events| - 1];
      assert events == front + [e];
      idx := MatchingGets(front, filter);
      GetsMore(front, Matching(front, filter), filter, idx, e);
      FilterMeans(e, filter);
      if Wanted(e, filter) {
        idx := idx + [|front|];
      }
    }
  }

  /** `got` holds each published and wanted event once, in order, and nothing else. */
  ghost predicate GetsPublished(stored: seq<(Event, bool)>, got: seq<Event>, filter: Option<string>, idx: seq<nat>) {
    |idx| == |got| && (forall i, j :: 0 <= i < j < |idx| ==> idx[i] < idx[j]) &&
    (forall i :: 0 <= i < |idx| ==> idx[i] < |stored| && got[i] == stored[idx[i]].0) &&
    forall j: nat :: j < |stored| ==> (j in idx <==> stored[j].1 && Wanted(stored[j].0, filter))
  }

  lemma PublishedMore(stored: seq<(Event, bool)>, got: seq<Event>, filter: Option<string>, idx: seq<nat>,
                      last: (Event, bool))
    requires GetsPublished(stored, got, filter, idx)
    ensures last.1 && Wanted(last.0, filter) ==>
              GetsPublished(stored + [last], got + [last.0], filter, idx + [|stored|])
    ensures !(last.1 && Wanted(last.0, filter)) ==> GetsPublished(stored + [last], got, filter, idx)
  {
    assert forall j :: j in idx ==> j < |stored|;
  }

  lemma {:induction false} PublishedGets(stored: seq<(Event, bool)>, filter: Option<string>) returns (idx: seq<nat>)
    ensures GetsPublished(stored, Matching(Published(stored), filter), filter, idx)
  {
    if stored == [] {
      idx := [];
    } else {
      var front, last := stored[..|stored| - 1], stored[|stored| - 1];
      assert stored == front + [last];
      idx := PublishedGets(front, filter);
      PublishedMore(front, Matching(Published(front), filter), filter, idx, last);
      FilterMeans(last.0, filter);
      if last.1 {
        assert (Published(front) + [last.0])[..|Published(front)|] == Published(front);
        if Wanted(last.0, filter) {
          idx := idx + [|front|];
        }
      } else {
        assert Published(front) + [] == Published(front);
      }
    }
  }

  /**
   A live subscriber with a filter receives each wanted event that was published while it was subscribed, once and
   in order, and nothing else.
   */
  lemma LiveDeliveryExactly(h: History, ops: seq<Operation>, s: nat, filter: Option<string>)
    returns (got: seq<Event>, idx: seq<nat>)
    requires HistoryOk(h) && Keeps(h, s, filter) && Leaving(s) !in ops
    ensures h.stored <= Run(h, ops).stored && s in Run(h, ops).bus.received
    ensures Run(h, ops).bus.received[s] == h.bus.received[s] + got
    ensures GetsPublished(Run(h, ops).stored[|h.stored|..], got, filter, idx)
  {
    LiveDelivery(h, ops, s, filter);
    got := Matching(Published(Run(h, ops).stored[|h.stored|..]), filter);
    idx := PublishedGets(Run(h, ops).stored[|h.stored|..], filter);
  }

  /** Replay from the cursor of event `k` writes each wanted event stored after it, once and in order. */
  lemma ReplayExactly(h: History, k: nat, filter: Option<string>) returns (events: seq<Event>, idx: seq<nat>)
    requires HistoryOk(h) && Retained(h, k)
    ensures |events| == |h.stored| - k && forall i :: 0 <= i < |events| ==> events[i] == h.stored[k + i].0
    ensures GetsWanted(events, Replay(h.bus, Some(Decimal(k)), filter), filter, idx)
  {
    ReplayAfterCursor(h, k, filter);
    events := EventsOf(h.stored[k..]);
    idx := MatchingGets(events, filter);
  }

  /** Without a cursor all retained events are replayed: the last `maxEvents`, as far as they are wanted. */
  lemma ReplayFromStart(h: History, after: Option<string>, filter: Option<string>)
    returns (first: nat, events: seq<Event>, idx: seq<nat>)
    requires HistoryOk(h) && (after == None || after == Some(""))
    ensures forall k: nat :: Retained(h, k) <==> first < k <= |h.stored|
    ensures first <= |h.stored| && |events| == |h.stored| - first
    ensures forall i :: 0 <= i < |events| ==> events[i] == h.stored[first + i].0
    ensures GetsWanted(events, Replay(h.bus, after, filter), filter, idx)
  {
    events := h.bus.events;
    first := |h.stored| - |events|;
    forall i | 0 <= i < |events| ensures events[i] == h.stored[first + i].0 {
      BufferAt(h, i);
    }
    assert h.bus.events[0..] == h.bus.events;
    idx := MatchingGets(events, filter);
  }

  /** A stream that resumes gets, written and received together, each wanted event after its cursor once, in order. */
  lemma ResumeExactly(h: History, after: seq<Operation>, k: nat, filter: Option<string>)
    returns (events: seq<Event>, written: seq<nat>, got: seq<nat>)
    requires HistoryOk(h) && Retained(h, k) && Leaving(h.bus.nextSubscriber) !in after
    ensures |events| == |h.stored| - k && forall i :: 0 <= i < |events| ==> events[i] == h.stored[k + i].0
    ensures GetsWanted(events, Replay(h.bus, Some(Decimal(k)), filter), filter, written)
    ensures var h' := Run(Step(h, Connecting(Some(Decimal(k)), filter)), after);
            h.stored <= h'.stored && h.bus.nextSubscriber in h'.bus.received &&
            GetsPublished(h'.stored[|h.stored|..], h'.bus.received[h.bus.nextSubscriber], filter, got)
  {
    events, written := ReplayExactly(h, k, filter);
    ReplayAfterCursor(h, k, filter);
    got := JoinedGets(h, after, Some(Decimal(k)), filter);
  }

  /** A stream that connects without losing its cursor receives what is published and wanted from then on. */
  lemma JoinedGets(h: History, after: seq<Operation>, cursor: Option<string>, filter: Option<string>)
    returns (got: seq<nat>)
    requires HistoryOk(h) && !LostCursor(h.bus, cursor) && Leaving(h.bus.nextSubscriber) !in after
    ensures var h' := Run(Step(h, Connecting(cursor, filter)), after);
            h.stored <= h'.stored && h.bus.nextSubscriber in h'.bus.received &&
            GetsPublished(h'.stored[|h.stored|..], h'.bus.received[h.bus.nextSubscriber], filter, got)
  {
    var joined, s := Step(h, Connecting(cursor, filter)), h.bus.nextSubscriber;
    ConnectJoins(h, cursor, filter);
    var received;
    received, got := LiveDeliveryExactly(joined, after, s, filter);
    assert Run(joined, after).bus.received[s] == received;
  }

  // ----- What each operation stores, and who stops receiving -----

  /** Each operation on an open bus stores exactly this, and tells subscribers exactly when it publishes. */
  lemma StepStores(h: History, op: Operation)
    requires HistoryOk(h) && !h.bus.closed
    ensures var n := Decimal(|h.stored| + 1);
            match op
            case Publishing(kind, traceId) => Step(h, op).stored == h.stored + [(Event(n, kind, traceId), true)]
            case Recording(kind, traceId) => Step(h, op).stored == h.stored + [(Event(n, kind, traceId), false)]
            case Connecting(after, filter) =>
              Step(h, op).stored ==
              h.stored + if LostCursor(h.bus, after) then [(Event(n, Resync, filter), true)] else []
            case _ => Step(h, op).stored == h.stored
  {
  }

  /** A closed bus stays closed, stores nothing and calls no listener any more. */
  lemma {:induction false} ClosedIsSilent(h: History, ops: seq<Operation>)
    requires h.bus.closed && forall s :: s in h.bus.received ==> s < h.bus.nextSubscriber
    ensures var h' := Run(h, ops);
            h'.bus.closed && h'.stored == h.stored && h'.bus.nextSubscriber >= h.bus.nextSubscriber &&
            forall s :: s in h.bus.received ==> s in h'.bus.received && h'.bus.received[s] == h.bus.received[s]
  {
    if ops == [] {
    } else {
      ClosedIsSilent(h, ops[..|ops| - 1]);
    }
  }

  lemma ClosingCloses(h: History)
    ensures Step(h, Closing).bus.closed && Step(h, Closing).stored == h.stored
    ensures Step(h, Closing).bus.received == h.bus.received
  {
  }

  /** A subscriber that has left receives nothing any more. */
  lemma {:induction false} LeftReceivesNothing(h: History, ops: seq<Operation>, s: nat)
    requires s in h.bus.received && s < h.bus.nextSubscriber
    ensures var h' := Run(Step(h, Leaving(s)), ops);
            s in h'.bus.received && h'.bus.received[s] == h.bus.received[s] &&
            s !in h'.bus.subscribers && s < h'.bus.nextSubscriber
  {
    if ops == [] {
    } else {
      var front, op := ops[..|ops| - 1], ops[|ops| - 1];
      LeftReceivesNothing(h, front, s);
      LeftStep(Run(Step(h, Leaving(s)), front), op, s);
    }
  }

  lemma LeftStep(h: History, op: Operation, s: nat)
    requires s in h.bus.received && s !in h.bus.subscribers && s < h.bus.nextSubscriber
    ensures var h' := Step(h, op);
            s in h'.bus.received && h'.bus.received[s] == h.bus.received[s] &&
            s !in h'.bus.subscribers && s < h'.bus.nextSubscriber
  {
  }
}
