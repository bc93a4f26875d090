/** The capability index of the bus and the choice of recipients. */
module Routing {
  import opened Graphs
  import opened Protocol
  import opened Wrappers

  type Capabilities = map<string, set<string>>

  type Index = map<string, set<string>>

  // ----- The capability index -----

  /** Registered agents that declare a capability. */
  function Declaring(agents: Capabilities, capability: string): set<string> {
    set a | a in agents && capability in agents[a]
  }

  function Declared(agents: Capabilities): set<string> {
    set a, c | a in agents && c in agents[a] :: c
  }

  /** The index that lists, for every declared capability, exactly the agents declaring it. */
  function Inverse(agents: Capabilities): Index {
    map c | c in Declared(agents) :: Declaring(agents, c)
  }

  function AgentsFor(index: Index, capability: string): set<string> {
    if capability in index then index[capability] else {}
  }

  /** Add an agent under each of its capabilities. */
  function Indexed(index: Index, agent: string, capabilities: set<string>): Index {
    map c | c in index.Keys + capabilities :: AgentsFor(index, c) + if c in capabilities then {agent} else {}
  }

  /** Remove an agent under each of its capabilities, and the entries this leaves empty. */
  function Unindexed(index: Index, agent: string, capabilities: set<string>): Index {
    map c | c in index && !(c in capabilities && index[c] - {agent} == {}) ::
      if c in capabilities then index[c] - {agent} else index[c]
  }

  lemma IndexedNone(index: Index, agent: string)
    ensures Indexed(index, agent, {}) == index
  {
    forall c | c in index ensures Indexed(index, agent, {})[c] == index[c] {
    }
  }

  lemma IndexedOne(index: Index, agent: string, done: set<string>, c: string)
    requires c !in done
    ensures var before := Indexed(index, agent, done);
            Indexed(index, agent, done + {c}) == before[c := AgentsFor(before, c) + {agent}]
  {
    var before, after := Indexed(index, agent, done), Indexed(index, agent, done + {c});
    forall d | d in after ensures after[d] == before[c := AgentsFor(before, c) + {agent}][d] {
      assert d == c ==> AgentsFor(before, c) == AgentsFor(index, c);
    }
  }

  lemma UnindexedNone(index: Index, agent: string)
    ensures Unindexed(index, agent, {}) == index
  {
  }

  lemma UnindexedOne(index: Index, agent: string, done: set<string>, c: string)
    requires c !in done
    ensures var before := Unindexed(index, agent, done);
            Unindexed(index, agent, done + {c}) ==
              if c !in before then before
              else if before[c] - {agent} == {} then before - {c}
              else before[c := before[c] - {agent}]
  {
  }

  lemma DeclaringMember(agents: Capabilities, capability: string)
    ensures capability in Declared(agents) <==> Declaring(agents, capability) != {}
  {
    if capability in Declared(agents) {
      var a :| a in agents && capability in agents[a];
      assert a in Declaring(agents, capability);
    }
    if Declaring(agents, capability) != {} {
      var a :| a in Declaring(agents, capability);
      assert a in agents && capability in agents[a];
    }
  }

  /** Taking an agent out of the index gives the index of the remaining agents. */
  lemma UnindexedIsInverse(agents: Capabilities, agent: string)
    requires agent in agents
    ensures Unindexed(Inverse(agents), agent, agents[agent]) == Inverse(agents - {agent})
  {
    var left, right := Unindexed(Inverse(agents), agent, agents[agent]), Inverse(agents - {agent});
    forall c
      ensures c in left <==> c in right
      ensures c in left ==> left[c] == right[c]
    {
      DeclaringMember(agents, c);
      DeclaringMember(agents - {agent}, c);
      assert Declaring(agents - {agent}, c) == Declaring(agents, c) - {agent};
    }
  }

  /** Putting a new agent into the index gives the index of the agents with it. */
  lemma IndexedIsInverse(agents: Capabilities, agent: string, capabilities: set<string>)
    requires agent !in agents
    ensures Indexed(Inverse(agents), agent, capabilities) == Inverse(agents[agent := capabilities])
  {
    var left, right := Indexed(Inverse(agents), agent, capabilities), Inverse(agents[agent := capabilities]);
    forall c
      ensures c in left <==> c in right
      ensures c in left ==> left[c] == right[c]
    {
      DeclaringMember(agents, c);
      DeclaringMember(agents[agent := capabilities], c);
      assert Declaring(agents[agent := capabilities], c) ==
             Declaring(agents, c) + if c in capabilities then {agent} else {};
    }
  }

  /** Replacing the capabilities of a registered agent. */
  lemma ReindexedIsInverse(agents: Capabilities, agent: string, capabilities: set<string>)
    requires agent in agents
    ensures Indexed(Unindexed(Inverse(agents), agent, agents[agent]), agent, capabilities) ==
            Inverse(agents[agent := capabilities])
  {
    UnindexedIsInverse(agents, agent);
    IndexedIsInverse(agents - {agent}, agent, capabilities);
    assert (agents - {agent})[agent := capabilities] == agents[agent := capabilities];
  }

  // ----- Choosing recipients -----

  datatype Route = Recipients(agents: seq<string>) | NotRegistered | NoRecipient

  datatype CapabilityMode = First | All

  /** The order in which agent ids are compared. */
  ghost predicate IsOrder(le: (string, string) -> bool) {
    (forall a, b :: le(a, b) || le(b, a)) &&
    (forall a, b :: le(a, b) && le(b, a) ==> a == b) &&
    (forall a, b, c :: le(a, b) && le(b, c) ==> le(a, c))
  }

  ghost predicate Sorted(le: (string, string) -> bool, s: seq<string>) {
    forall i, j :: 0 <= i < j < |s| ==> le(s[i], s[j])
  }

  ghost predicate IsLeast(le: (string, string) -> bool, a: string, s: set<string>) {
    a in s && forall b :: b in s ==> le(a, b)
  }

  /** Put an id into a sorted list. */
  function InsertSorted(le: (string, string) -> bool, s: seq<string>, a: string): seq<string> {
    if s == [] || le(a, s[0]) then [a] + s else [s[0]] + InsertSorted(le, s[1..], a)
  }

  lemma {:induction false} InsertKeepsSorted(le: (string, string) -> bool, s: seq<string>, a: string)
    requires IsOrder(le) && Sorted(le, s)
    ensures Sorted(le, InsertSorted(le, s, a))
    ensures multiset(InsertSorted(le, s, a)) == multiset(s) + multiset{a}
  {
    if s == [] {
    } else {
      assert s == [s[0]] + s[1..];
      if le(a, s[0]) {
        forall j | 0 <= j < |s| ensures le(a, s[j]) {
          assert le(s[0], s[j]);
        }
      } else {
        InsertKeepsSorted(le, s[1..], a);
        var rest := InsertSorted(le, s[1..], a);
        forall j | 0 <= j < |rest| ensures le(s[0], rest[j]) {
          assert rest[j] in multiset(rest);
          assert rest[j] in s[1..] || rest[j] == a;
        }
      }
    }
  }

  /** The members of a set as a list sorted by id. */
  method SortAgents(le: (string, string) -> bool, agents: set<string>) returns (sorted: seq<string>)
    requires IsOrder(le)
    ensures Sorted(le, sorted) && Elements(sorted) == agents && Distinct(sorted)
  {
    sorted := [];
    var rest := agents;
    while rest != {}
      invariant rest <= agents && Sorted(le, sorted)
      invariant multiset(sorted) == multiset(agents - rest)
      decreases rest
    {
      var a :| a in rest;
      InsertKeepsSorted(le, sorted, a);
      assert agents - (rest - {a}) == agents - rest + {a};
      sorted := InsertSorted(le, sorted, a);
      rest := rest - {a};
    }
    forall x ensures x in sorted <==> x in agents {
      assert x in sorted <==> x in multiset(sorted);
    }
    OncePerElement(sorted, agents);
  }

  lemma OncePerElement(s: seq<string>, agents: set<string>)
    requires multiset(s) == multiset(agents)
    ensures Distinct(s)
  {
    forall i, j | 0 <= i < j < |s| ensures s[i] != s[j] {
      assert s == s[..i] + [s[i]] + s[i + 1..j] + [s[j]] + s[j + 1..];
      assert multiset(s)[s[i]] <= 1;
    }
  }

  /** A direct recipient must be registered. */
  method ResolveDirectRecipient(to: string, registered: set<string>) returns (r: Route)
    ensures r == if to in registered then Recipients([to]) else NotRegistered
  {
    r := if to in registered then Recipients([to]) else NotRegistered;
  }

  /** By capability: the least registered agent declaring it, or all of them in order. */
  method ResolveByCapability(le: (string, string) -> bool, mode: CapabilityMode, capability: string, index: Index,
                             ghost agents: Capabilities)
    returns (r: Route)
    requires IsOrder(le) && index == Inverse(agents)
    ensures r.NoRecipient? <==> Declaring(agents, capability) == {}
    ensures !r.NoRecipient? && mode.First? ==>
            r.Recipients? && |r.agents| == 1 && IsLeast(le, r.agents[0], Declaring(agents, capability))
    ensures !r.NoRecipient? && mode.All? ==>
              r.Recipients? && Elements(r.agents) == Declaring(agents, capability) && Sorted(le, r.agents) &&
                Distinct(r.agents)
  {
    DeclaringMember(agents, capability);
    var found := AgentsFor(index, capability);
    if found == {} {
      return NoRecipient;
    }
    var sorted := SortAgents(le, found);
    LeastIsFirst(le, sorted);
    r := if mode.All? then Recipients(sorted) else Recipients([sorted[0]]);
  }

  lemma LeastIsFirst(le: (string, string) -> bool, sorted: seq<string>)
    requires IsOrder(le) && Sorted(le, sorted) && Elements(sorted) != {}
    ensures sorted != [] && IsLeast(le, sorted[0], Elements(sorted))
  {
    var a :| a in Elements(sorted);
    assert a in sorted;
    forall b | b in Elements(sorted) ensures le(sorted[0], b) {
      var i :| 0 <= i < |sorted| && sorted[i] == b;
      assert le(sorted[0], sorted[0]);
    }
  }

  /** A response goes back to the sender of the message it names, whatever traces still hold that message. */
  function ResolveTaskResponse(inReplyTo: string, index: map<string, Message>): Route {
    match Lookup(index, inReplyTo)
    case None => NoRecipient
    case Some(original) => Recipients([original.sender])
  }

  /** A query goes to the registry agent, or else to the least agent declaring the capability. */
  method ResolveCapabilityQuery(le: (string, string) -> bool, capability: string, registry: string,
                                registered: set<string>, index: Index, ghost agents: Capabilities)
    returns (r: Route)
    requires IsOrder(le) && index == Inverse(agents)
    ensures registry in registered ==> r == Recipients([registry])
    ensures registry !in registered ==> (r.NoRecipient? <==> Declaring(agents, capability) == {})
    ensures registry !in registered && !r.NoRecipient? ==>
              r.Recipients? && |r.agents| == 1 && IsLeast(le, r.agents[0], Declaring(agents, capability))
  {
    if registry in registered {
      return Recipients([registry]);
    }
    r := ResolveByCapability(le, First, capability, index, agents);
  }

  /** What a resolved route must satisfy, message kind by message kind. */
  ghost predicate RouteOk(le: (string, string) -> bool, mode: CapabilityMode, registry: string, agents: Capabilities,
                          known: map<string, Message>, m: Message, r: Route) {
    match m
    case TaskResponse(_, _, _, inReplyTo, _, _) => r == ResolveTaskResponse(inReplyTo, known)
    case CapabilityQuery(_, _, _, capability) =>
      if registry in agents then r == Recipients([registry]) else CapabilityRoute(le, First, agents, capability, r)
    case _ =>
      if m.to.Some? && m.to.value != "" then
        r == (if m.to.value in agents then Recipients([m.to.value]) else NotRegistered)
      else CapabilityRoute(le, mode, agents, m.capability, r)
  }

  ghost predicate CapabilityRoute(le: (string, string) -> bool, mode: CapabilityMode, agents: Capabilities,
                                  capability: string, r: Route) {
    var declaring := Declaring(agents, capability);
    if declaring == {} then r == NoRecipient
    else r.Recipients? &&
         if mode.First? then |r.agents| == 1 && IsLeast(le, r.agents[0], declaring)
         else Elements(r.agents) == declaring && Sorted(le, r.agents) && Distinct(r.agents)
  }

  /** Direct recipient first, then the capability index; responses follow the message they name. */
  method ResolveRoute(le: (string, string) -> bool, mode: CapabilityMode, registry: string, m: Message, index: Index,
                      known: map<string, Message>, registered: set<string>, ghost agents: Capabilities)
                        returns (r: Route)
    requires IsOrder(le) && index == Inverse(agents) && registered == agents.Keys
    ensures RouteOk(le, mode, registry, agents, known, m, r)
  {
    match m {
      case TaskResponse(_, _, _, inReplyTo, _, _) =>
        r := ResolveTaskResponse(inReplyTo, known);
      case CapabilityQuery(_, _, _, capability) =>
        r := ResolveCapabilityQuery(le, capability, registry, registered, index, agents);
      case TaskRequest(_, _, _, to, capability, _) =>
        r := ResolveDirectOrCapability(le, mode, to, capability, index, registered, agents);
      case Delegation(_, _, _, to, capability, _, _) =>
        r := ResolveDirectOrCapability(le, mode, to, capability, index, registered, agents);
    }
  }

  method ResolveDirectOrCapability(le: (string, string) -> bool, mode: CapabilityMode, to: Option<string>,
                                   capability: string,
                                   index: Index, registered: set<string>, ghost agents: Capabilities) returns (r: Route)
    requires IsOrder(le) && index == Inverse(agents) && registered == agents.Keys
    ensures to.Some? && to.value != "" ==> r == if to.value in agents then Recipients([to.value]) else NotRegistered
    ensures !(to.Some? && to.value != "") ==> CapabilityRoute(le, mode, agents, capability, r)
  {
    if to.Some? && to.value != "" {
      r := ResolveDirectRecipient(to.value, registered);
    } else {
      r := ResolveByCapability(le, mode, capability, index, agents);
    }
  }
}
