/** The trace store: bounded message lists per trace beside an unbounded index by message id. */
module TraceStore {
  import opened Protocol
  import opened Wrappers

  datatype Store = Store(maxMessages: int, traces: map<string, seq<Message>>, index: map<string, Message>)

  function MessagesFor(s: Store, traceId: string): seq<Message> {
    if traceId in s.traces then s.traces[traceId] else []
  }

  /** Push onto the trace, drop the oldest message if the list is now too long, and index by id. */
  function RecordIn(s: Store, m: Message): Store {
    var list := MessagesFor(s, m.traceId) + [m];
    s.(traces := s.traces[m.traceId := if |list| > s.maxMessages then list[1..] else list],
       index := s.index[m.id := m])
  }

  function StoreOf(maxMessages: int, log: seq<Message>): (s: Store)
    ensures s.maxMessages == maxMessages
  {
    if log == [] then Store(maxMessages, map[], map[]) else
      RecordIn(StoreOf(maxMessages, log[..|log| - 1]), log[|log| - 1])
  }

  class TraceStore {
    const maxMessages: int
    var traces: map<string, seq<Message>>
    var index: map<string, Message>

    function View(): Store
      reads this
    {
      Store(maxMessages, traces, index)
    }

    constructor (maxMessages: int)
      ensures View() == StoreOf(maxMessages, [])
    {
      this.maxMessages := maxMessages;
      traces, index := map[], map[];
    }

    method Record(m: Message)
      modifies this
      ensures View() == RecordIn(old(View()), m)
    {
      index := index[m.id := m];
      var list := (if m.traceId in traces then traces[m.traceId] else []) + [m];
      if |list| > maxMessages {
        list := list[1..];
      }
      traces := traces[m.traceId := list];
    }

    method GetMessageById(id: string) returns (m: Option<Message>)
      ensures m == Lookup(index, id)
    {
      m := Lookup(index, id);
    }

    /** Record a historical message, once. */
    method ReplayTraceMessage(m: Message)
      modifies this
      ensures View() == if m.id in old(index) then old(View()) else RecordIn(old(View()), m)
    {
      var known := GetMessageById(m.id);
      if known.None? {
        Record(m);
      }
    }
  }

  // ----- What the store remembers of a log -----

  function OfTrace(log: seq<Message>, traceId: string): seq<Message> {
    if log == [] then [] else
      OfTrace(log[..|log| - 1], traceId) + if log[|log| - 1].traceId == traceId then [log[|log| - 1]] else []
  }

  /** The last `n` elements, or all of them. */
  function Tail<T>(s: seq<T>, n: int): seq<T> {
    if n <= 0 then [] else if |s| <= n then s else s[|s| - n..]
  }

  /** A trace list holds the last messages of its trace, up to the bound. */
  lemma {:induction false} TraceIsTail(maxMessages: int, log: seq<Message>, traceId: string)
    ensures MessagesFor(StoreOf(maxMessages, log), traceId) == Tail(OfTrace(log, traceId), maxMessages)
  {
    if log == [] {
    } else {
      var front, last := log[..|log| - 1], log[|log| - 1];
      TraceIsTail(maxMessages, front, traceId);
      if last.traceId == traceId {
        TailPush(OfTrace(front, traceId), maxMessages, last);
      }
    }
  }

  lemma TailPush<T>(s: seq<T>, n: int, x: T)
    ensures var list := Tail(s, n) + [x];
            Tail(s + [x], n) == if |list| > n then list[1..] else list
  {
  }

  /** The message recorded last under `id`. */
  function LastWithId(log: seq<Message>, id: string): Option<Message> {
    if log == [] then None
    else if log[|log| - 1].id == id then Some(log[|log| - 1])
    else LastWithId(log[..|log| - 1], id)
  }

  /** The index answers for every message ever recorded, whether or not its trace list still holds it. */
  lemma {:induction false} IndexIsUnbounded(maxMessages: int, log: seq<Message>, id: string)
    ensures Lookup(StoreOf(maxMessages, log).index, id) == LastWithId(log, id)
  {
    if log == [] {
    } else {
      IndexIsUnbounded(maxMessages, log[..|log| - 1], id);
    }
  }

  ghost predicate UniqueMessageIds(log: seq<Message>) {
    forall m, n :: m in log && n in log && m.id == n.id ==> m == n
  }

  lemma {:induction false} LastWithIdIsTheMessage(log: seq<Message>, m: Message)
    requires UniqueMessageIds(log) && m in log
    ensures LastWithId(log, m.id) == Some(m)
  {
    var front, last := log[..|log| - 1], log[|log| - 1];
    assert last in log;
    if last.id == m.id {
    } else {
      assert m in front;
      assert forall n :: n in front ==> n in log;
      LastWithIdIsTheMessage(front, m);
    }
  }

  lemma {:induction false} LastWithIdFound(log: seq<Message>, id: string)
    ensures LastWithId(log, id).Some? ==> LastWithId(log, id).value in log && LastWithId(log, id).value.id == id
    ensures LastWithId(log, id).None? ==> forall m :: m in log ==> m.id != id
  {
    if log == [] {
    } else {
      LastWithIdFound(log[..|log| - 1], id);
    }
  }
}
