/** Sending a task with failover: every capability of a chain, every candidate agent, several tries per agent. */
module Recovery {
  import opened Graphs
  import opened Selections
  import opened Wrappers

  datatype Policy = Policy(maxAttemptsPerAgent: Option<int>, maxTotalAttempts: Option<int>,
                           retryableTaskErrorCodes: Option<seq<string>>,
                             retryableTransportErrorCodes: Option<seq<string>>,
                           fallbackCapabilities: Option<seq<string>>, fallbackAgents: Option<seq<string>>,
                           excludeFailedAgents: Option<bool>)

  datatype NormalizedPolicy = NormalizedPolicy(maxAttemptsPerAgent: nat, maxTotalAttempts: Option<nat>,
                                               retryableTaskErrorCodes: seq<string>,
                                                 retryableTransportErrorCodes: seq<string>,
                                               fallbackAgents: Option<seq<string>>, excludeFailedAgents: bool)

  const DEFAULT_RETRYABLE_TRANSPORT_ERROR_CODES: seq<string> :=
    ["ROUTING_NO_RECIPIENT", "ROUTING_AGENT_NOT_REGISTERED", "ROUTING_DELIVERY_FAILED", "RUNTIME_RESPONSE_TIMEOUT",
     "RUNTIME_SEND_FAILED"]

  function GetOr<T>(o: Option<T>, default: T): T {
    if o.Some? then o.value else default
  }

  /** At least one try per agent; a total cap only when it is positive. */
  function Normalize(p: Policy): (n: NormalizedPolicy)
    ensures n.maxAttemptsPerAgent >= 1 && (n.maxTotalAttempts.Some? ==> n.maxTotalAttempts.value >= 1)
  {
    var tries := GetOr(p.maxAttemptsPerAgent, 1);
    NormalizedPolicy(if tries < 1 then 1 else tries,
                     if p.maxTotalAttempts.Some? && p.maxTotalAttempts.value > 0 then Some(p.maxTotalAttempts.value)
                     else None,
                     GetOr(p.retryableTaskErrorCodes, []),
                     GetOr(p.retryableTransportErrorCodes, DEFAULT_RETRYABLE_TRANSPORT_ERROR_CODES),
                     p.fallbackAgents,
                     GetOr(p.excludeFailedAgents, true))
  }

  /** The first occurrences, in order. */
  function Deduplicate(s: seq<string>): (r: seq<string>)
    ensures Distinct(r) && forall x :: x in r <==> x in s
  {
    if s == [] then [] else
      var front, last := Deduplicate(s[..|s| - 1]), s[|s| - 1];
      assert forall x :: x in s <==> x in s[..|s| - 1] || x == last;
      if last in front then front else (DistinctAppend(front, [last]); front + [last])
  }

  /** The primary capability, then the fallbacks of the step, then those of the policy, without repetition. */
  function BuildCapabilityChain(primary: string, stepFallbacks: seq<string>, policy: Policy): seq<string> {
    Deduplicate([primary] + stepFallbacks + GetOr(policy.fallbackCapabilities, []))
  }

  /** What one try comes back with. */
  datatype Try = TransportError(code: string) | TaskError(code: string) | Succeeded

  datatype Attempt = Attempt(number: nat, agent: string, capability: string, outcome: Try)

  /** Whether the policy retries the same agent after this failure. */
  predicate IsRetryable(p: NormalizedPolicy, t: Try) {
    match t
    case TransportError(code) => code in p.retryableTransportErrorCodes
    case TaskError(code) => p.retryableTaskErrorCodes == [] || code in p.retryableTaskErrorCodes
    case Succeeded => false
  }

  datatype Result =
    | Success(attempts: seq<Attempt>, selectedAgent: string, selectedCapability: string)
    | Exhausted(attempts: seq<Attempt>)

  /** An explicit recipient, or the policy's agents, or those found for the capability. */
  function ResolveAgentCandidates(explicitTo: Option<string>, p: NormalizedPolicy, found: seq<string>): seq<string> {
    if explicitTo.Some? then [explicitTo.value]
    else if p.fallbackAgents.Some? && p.fallbackAgents.value != [] then p.fallbackAgents.value
    else found
  }

  function Without(agents: seq<string>, failed: set<string>): (r: seq<string>)
    ensures forall a :: a in r <==> a in agents && a !in failed
    ensures Distinct(agents) ==> Distinct(r)
  {
    if agents == [] then [] else
      var front, last := agents[..|agents| - 1], agents[|agents| - 1];
      var kept := Without(front, failed);
      assert Distinct(agents) ==> last !in front;
      if last in failed then kept else
        assert Distinct(agents) ==> Distinct(kept + [last]) by { if Distinct(agents) { DistinctAppend(kept, [last]); } }
        kept + [last]
  }

  // ----- The trail of a run -----

  /** Try number `turn` of candidate `candidate` under capability `capability` of the chain. */
  datatype Position = Position(capability: nat, candidate: nat, turn: nat)

  predicate Earlier(a: Position, b: Position) {
    a.capability < b.capability ||
    (a.capability == b.capability &&
     (a.candidate < b.candidate || (a.candidate == b.candidate && a.turn < b.turn)))
  }

  predicate SameAgentTurns(a: Position, b: Position) {
    a.capability == b.capability && a.candidate == b.candidate
  }

  /** What the run was given: the chain, the candidates found per capability, and the answer to each try. */
  datatype World = World(policy: NormalizedPolicy, chain: seq<string>, found: nat -> seq<string>,
                         answer: (nat, string, string) -> Try,
                         explicitTo: Option<string>)
  {
    function Candidates(k: nat): seq<string> {
      ResolveAgentCandidates(explicitTo, policy, found(k))
    }
  }

  /** The world of a call. */
  function WorldOf(primary: string, stepFallbacks: seq<string>, explicitTo: Option<string>, policy: Policy,
                   found: nat -> seq<string>, answer: (nat, string, string) -> Try): World {
    World(Normalize(policy), BuildCapabilityChain(primary, stepFallbacks, policy), found, answer, explicitTo)
  }

  /** `lists[k]` holds the candidates the run walks for capability `k`. */
  ghost predicate PositionOk(w: World, lists: seq<seq<string>>, attempt: Attempt, at: Position) {
    at.capability < |lists| <= |w.chain| && at.candidate < |lists[at.capability]| &&
    1 <= at.turn <= w.policy.maxAttemptsPerAgent &&
    attempt.agent == lists[at.capability][at.candidate] && attempt.capability == w.chain[at.capability] &&
    attempt.outcome == w.answer(attempt.number, attempt.capability, attempt.agent)
  }

  /**
   Attempts are numbered and placed in growing positions; an agent starts with turn one, and a further turn follows
   exactly on a retryable failure with turns left.
   */
  ghost predicate TrailOk(w: World, lists: seq<seq<string>>, attempts: seq<Attempt>, at: seq<Position>) {
    |at| == |attempts| &&
    (forall i :: 0 <= i < |attempts| ==> attempts[i].number == i + 1 && PositionOk(w, lists, attempts[i], at[i])) &&
    (forall i, j :: 0 <= i < j < |at| ==> Earlier(at[i], at[j])) &&
    (forall i, j :: 0 <= i && j == i + 1 < |at| ==>
      (SameAgentTurns(at[i], at[j]) <==> MayRetry(w, attempts[i], at[i])) &&
      at[j].turn == if SameAgentTurns(at[i], at[j]) then at[i].turn + 1 else 1) &&
    (at != [] ==> at[0].turn == 1) &&
    (w.policy.maxTotalAttempts.Some? ==> |attempts| <= w.policy.maxTotalAttempts.value)
  }

  ghost predicate MayRetry(w: World, a: Attempt, at: Position) {
    IsRetryable(w.policy, a.outcome) && at.turn < w.policy.maxAttemptsPerAgent
  }

  ghost predicate NoSuccess(attempts: seq<Attempt>) {
    forall i :: 0 <= i < |attempts| ==> !attempts[i].outcome.Succeeded?
  }

  function AgentsTried(attempts: seq<Attempt>): set<string> {
    set a | a in attempts :: a.agent
  }

  /** Everything tried so far lies before `p`. */
  ghost predicate AllBefore(at: seq<Position>, p: Position) {
    forall i :: 0 <= i < |at| ==> Earlier(at[i], p)
  }

  ghost predicate Tried(at: seq<Position>, capability: nat, candidate: nat) {
    exists i :: 0 <= i < |at| && at[i].capability == capability && at[i].candidate == candidate
  }

  /** The agents tried before capability `k`. */
  function AgentsBefore(attempts: seq<Attempt>, at: seq<Position>, k: nat): set<string>
    requires |at| == |attempts|
  {
    set i | 0 <= i < |attempts| && at[i].capability < k :: attempts[i].agent
  }

  lemma TriedBefore(attempts: seq<Attempt>, at: seq<Position>, i: nat, k: nat)
    requires i < |at| == |attempts|
    ensures at[i].capability < k ==> attempts[i].agent in AgentsBefore(attempts, at, k)
  {
  }

  lemma BeforeStays(attempts: seq<Attempt>, at: seq<Position>, a: Attempt, p: Position, k: nat)
    requires |at| == |attempts| && p.capability >= k
    ensures AgentsBefore(attempts + [a], at + [p], k) == AgentsBefore(attempts, at, k)
  {
    forall i | 0 <= i < |attempts| ensures (attempts + [a])[i] == attempts[i] && (at + [p])[i] == at[i] {
    }
    forall x | x in AgentsBefore(attempts, at, k) ensures x in AgentsBefore(attempts + [a], at + [p], k) {
      var i :| 0 <= i < |attempts| && at[i].capability < k && attempts[i].agent == x;
      TriedBefore(attempts + [a], at + [p], i, k);
    }
  }

  /** The candidates walked for capability `k`: all of them, or those not tried before it, in their order. */
  function Offered(w: World, k: nat, attempts: seq<Attempt>, at: seq<Position>): seq<string>
    requires |at| == |attempts|
  {
    if w.policy.excludeFailedAgents then Without(w.Candidates(k), AgentsBefore(attempts, at, k)) else w.Candidates(k)
  }

  ghost predicate ListsFaithful(w: World, lists: seq<seq<string>>, attempts: seq<Attempt>, at: seq<Position>)
    requires |at| == |attempts|
  {
    |lists| <= |w.chain| &&
    forall k :: 0 <= k < |lists| ==> lists[k] == Offered(w, k, attempts, at)
  }

  /**
   Every candidate listed under the first `k` capabilities, and the first `c` under capability `k`, has been tried.
   */
  ghost predicate TriedUpTo(lists: seq<seq<string>>, at: seq<Position>, k: nat, c: nat) {
    forall x: nat, y: nat :: x < |lists| && y < |lists[x]| && (x < k || (x == k && y < c)) ==> Tried(at, x, y)
  }

  ghost predicate Capped(w: World, attempts: seq<Attempt>) {
    w.policy.maxTotalAttempts.Some? && |attempts| >= w.policy.maxTotalAttempts.value
  }

  lemma PushTrail(w: World, lists: seq<seq<string>>, attempts: seq<Attempt>, at: seq<Position>, a: Attempt, p: Position)
    requires TrailOk(w, lists, attempts, at) && !Capped(w, attempts)
    requires a.number == |attempts| + 1 && PositionOk(w, lists, a, p) && AllBefore(at, p)
    requires at != [] ==>
               var last := |at| - 1;
               (SameAgentTurns(at[last], p) <==> MayRetry(w, attempts[last], at[last])) &&
               p.turn == if SameAgentTurns(at[last], p) then at[last].turn + 1 else 1
    requires at == [] ==> p.turn == 1
    ensures TrailOk(w, lists, attempts + [a], at + [p])
  {
  }

  lemma PushList(w: World, lists: seq<seq<string>>, attempts: seq<Attempt>, at: seq<Position>, list: seq<string>)
    requires TrailOk(w, lists, attempts, at) && |lists| < |w.chain|
    ensures TrailOk(w, lists + [list], attempts, at)
  {
    forall i | 0 <= i < |attempts| ensures PositionOk(w, lists + [list], attempts[i], at[i]) {
      assert PositionOk(w, lists, attempts[i], at[i]);
    }
  }

  /** Trying a listed agent keeps the lists faithful. */
  lemma PushFaithful(w: World, lists: seq<seq<string>>, attempts: seq<Attempt>, at: seq<Position>, a: Attempt,
                     p: Position)
    requires |at| == |attempts| && ListsFaithful(w, lists, attempts, at) && p.capability + 1 == |lists|
    ensures ListsFaithful(w, lists, attempts + [a], at + [p])
  {
    forall k | 0 <= k < |lists| ensures lists[k] == Offered(w, k, attempts + [a], at + [p]) {
      BeforeStays(attempts, at, a, p, k);
    }
  }

  /** Between agents: everything before `p` was tried and nothing succeeded, and the last agent has no turn left. */
  ghost predicate Between(w: World, lists: seq<seq<string>>, attempts: seq<Attempt>, at: seq<Position>, p: Position) {
    TrailOk(w, lists, attempts, at) && NoSuccess(attempts) && AllBefore(at, p) &&
      ListsFaithful(w, lists, attempts, at) &&
    TriedUpTo(lists, at, p.capability, p.candidate) &&
    (at != [] ==> !MayRetry(w, attempts[|at| - 1], at[|at| - 1]))
  }

  /** A run that ended: no candidate was passed over, and either the last attempt succeeded or none did. */
  ghost predicate StoppedWell(w: World, lists: seq<seq<string>>, r: Result, at: seq<Position>) {
    TrailOk(w, lists, r.attempts, at) && ListsFaithful(w, lists, r.attempts, at) &&
    (at != [] ==> TriedUpTo(lists, at, at[|at| - 1].capability, at[|at| - 1].candidate)) &&
    match r
    case Success(attempts, agent, capability) =>
      attempts != [] && NoSuccess(attempts[..|attempts| - 1]) &&
      var last := attempts[|attempts| - 1];
      last.outcome.Succeeded? && last.agent == agent && last.capability == capability
    case Exhausted(attempts) => NoSuccess(attempts)
  }

  /** The run went through all lists of all capabilities, and stopped with no retry left. */
  ghost predicate WalkedAll(w: World, lists: seq<seq<string>>, r: Result, at: seq<Position>) {
    |at| == |r.attempts| && |lists| == |w.chain| && TriedUpTo(lists, at, |w.chain|, 0) &&
    (at != [] ==> !MayRetry(w, r.attempts[|at| - 1], at[|at| - 1]))
  }

  /** Before turn `turn` of candidate `c`: either the agent is new or its last try may be retried. */
  ghost predicate TurnReady(w: World, lists: seq<seq<string>>, attempts: seq<Attempt>, at: seq<Position>, k: nat,
                            c: nat, turn: nat) {
    TrailOk(w, lists, attempts, at) && NoSuccess(attempts) && ListsFaithful(w, lists, attempts, at) &&
    AllBefore(at, Position(k, c, turn)) && TriedUpTo(lists, at, k, c) &&
    if turn <= 1 then AllBefore(at, Position(k, c, 0)) && (at != [] ==> !MayRetry(w, attempts[|at| - 1], at[|at| - 1]))
    else at != [] && at[|at| - 1] == Position(k, c, turn - 1) && MayRetry(w, attempts[|at| - 1], at[|at| - 1])
  }

  lemma TakeTurn(w: World, lists: seq<seq<string>>, attempts: seq<Attempt>, at: seq<Position>, k: nat, c: nat,
                 turn: nat, a: Attempt)
    requires 1 <= turn <= w.policy.maxAttemptsPerAgent && !Capped(w, attempts)
    requires |lists| == k + 1 <= |w.chain| && c < |lists[k]| && TurnReady(w, lists, attempts, at, k, c, turn)
    requires a == Attempt(|attempts| + 1, lists[k][c], w.chain[k], w.answer(|attempts| + 1, w.chain[k], lists[k][c]))
    ensures var attempts', at' := attempts + [a], at + [Position(k, c, turn)];
            TrailOk(w, lists, attempts', at') && ListsFaithful(w, lists, attempts', at') &&
            AllBefore(at', Position(k, c, turn + 1)) && TriedUpTo(lists, at', k, c + 1) &&
              AgentsTried(attempts') == AgentsTried(attempts) + {lists[k][c]} &&
            (!a.outcome.Succeeded? ==> NoSuccess(attempts')) &&
            (MayRetry(w, a, Position(k, c, turn)) ==> TurnReady(w, lists, attempts', at', k, c, turn + 1)) &&
            (!a.outcome.Succeeded? && !MayRetry(w, a, Position(k, c, turn)) ==>
             Between(w, lists, attempts', at', Position(k, c + 1, 0)))
  {
    var here := Position(k, c, turn);
    PushTrail(w, lists, attempts, at, a, here);
    PushFaithful(w, lists, attempts, at, a, here);
    PushAgents(attempts, a);
    assert (at + [here])[|at|] == here;
    TriedMore(lists, at, at + [here], k, c);
  }

  /** The run after turn `turn`: won, ready for the next turn, or done with the agent. */
  lemma AfterTurn(w: World, lists: seq<seq<string>>, attempts: seq<Attempt>, at: seq<Position>, k: nat, c: nat,
                  turn: nat, a: Attempt)
    requires 1 <= turn <= w.policy.maxAttemptsPerAgent && !Capped(w, attempts)
    requires |lists| == k + 1 <= |w.chain| && c < |lists[k]| && TurnReady(w, lists, attempts, at, k, c, turn)
    requires a == Attempt(|attempts| + 1, lists[k][c], w.chain[k], w.answer(|attempts| + 1, w.chain[k], lists[k][c]))
    ensures var attempts', at', here := attempts + [a], at + [Position(k, c, turn)], Position(k, c, turn);
            if a.outcome.Succeeded? then StoppedWell(w, lists, Success(attempts', lists[k][c], w.chain[k]), at')
            else if MayRetry(w, a, here) then TurnReady(w, lists, attempts', at', k, c, turn + 1)
            else Between(w, lists, attempts', at', Position(k, c + 1, 0))
    ensures AgentsTried(attempts + [a]) == AgentsTried(attempts) + {lists[k][c]}
  {
    TakeTurn(w, lists, attempts, at, k, c, turn, a);
    assert (attempts + [a])[..|attempts|] == attempts;
    assert (at + [Position(k, c, turn)])[|at|] == Position(k, c, turn);
  }

  /** All turns of one candidate. */
  method TryAgent(w: World, k: nat, c: nat, agent: string, attempts0: seq<Attempt>, ghost lists: seq<seq<string>>,
                  ghost at0: seq<Position>)
    returns (stop: Option<Result>, attempts: seq<Attempt>, ghost at: seq<Position>)
    requires w.policy.maxAttemptsPerAgent >= 1
    requires |lists| == k + 1 <= |w.chain| && c < |lists[k]| && agent == lists[k][c]
    requires Between(w, lists, attempts0, at0, Position(k, c, 0))
    ensures stop.None? ==> Between(w, lists, attempts, at, Position(k, c + 1, 0))
    ensures stop.None? ==> AgentsTried(attempts) == AgentsTried(attempts0) + {agent}
    ensures stop.Some? ==> StoppedWell(w, lists, stop.value, at)
    ensures stop.Some? && stop.value.Exhausted? ==> Capped(w, stop.value.attempts)
  {
    stop, attempts, at := None, attempts0, at0;
    var turn := 1;
    while true
      invariant 1 <= turn <= w.policy.maxAttemptsPerAgent
      invariant TurnReady(w, lists, attempts, at, k, c, turn)
      invariant if turn == 1 then attempts == attempts0 else AgentsTried(attempts) == AgentsTried(attempts0) + {agent}
      decreases w.policy.maxAttemptsPerAgent - turn
    {
      if w.policy.maxTotalAttempts.Some? && |attempts| >= w.policy.maxTotalAttempts.value {
        TriedSoFar(lists, at, Position(k, c, turn));
        return Some(Exhausted(attempts)), attempts, at;
      }
      ghost var here := Position(k, c, turn);
      var outcome := w.answer(|attempts| + 1, w.chain[k], agent);
      var attempt := Attempt(|attempts| + 1, agent, w.chain[k], outcome);
      AfterTurn(w, lists, attempts, at, k, c, turn, attempt);
      attempts, at := attempts + [attempt], at + [here];
      if outcome.Succeeded? {
        return Some(Success(attempts, agent, w.chain[k])), attempts, at;
      }
      if !(turn < w.policy.maxAttemptsPerAgent && IsRetryable(w.policy, outcome)) {
        return;
      }
      turn := turn + 1;
    }
  }

  lemma PushAgents(attempts: seq<Attempt>, a: Attempt)
    ensures AgentsTried(attempts + [a]) == AgentsTried(attempts) + {a.agent}
  {
    var all := attempts + [a];
    assert forall x :: x in all <==> x in attempts || x == a;
  }

  /** All candidates of one capability. */
  method TryCandidates(w: World, k: nat, candidates: seq<string>, attempts0: seq<Attempt>, failed0: set<string>,
                       ghost lists: seq<seq<string>>, ghost at0: seq<Position>)
    returns (stop: Option<Result>, attempts: seq<Attempt>, failed: set<string>, ghost at: seq<Position>)
    requires w.policy.maxAttemptsPerAgent >= 1
    requires |lists| == k + 1 <= |w.chain| && candidates == lists[k]
    requires Between(w, lists, attempts0, at0, Position(k, 0, 0))
    requires w.policy.excludeFailedAgents ==> failed0 == AgentsTried(attempts0)
    ensures stop.None? ==> Between(w, lists, attempts, at, Position(k + 1, 0, 0))
    ensures stop.None? && w.policy.excludeFailedAgents ==> failed == AgentsTried(attempts)
    ensures stop.Some? ==> StoppedWell(w, lists, stop.value, at)
    ensures stop.Some? && stop.value.Exhausted? ==> Capped(w, stop.value.attempts)
  {
    stop, attempts, failed, at := None, attempts0, failed0, at0;
    for c := 0 to |candidates|
      invariant stop.None? && Between(w, lists, attempts, at, Position(k, c, 0))
      invariant w.policy.excludeFailedAgents ==> failed == AgentsTried(attempts)
    {
      stop, attempts, at := TryAgent(w, k, c, candidates[c], attempts, lists, at);
      if stop.Some? {
        return;
      }
      if w.policy.excludeFailedAgents {
        failed := failed + {candidates[c]};
      }
    }
  }

  /** What was tried before a position includes what was tried before the last attempt. */
  lemma TriedSoFar(lists: seq<seq<string>>, at: seq<Position>, p: Position)
    requires TriedUpTo(lists, at, p.capability, p.candidate) && AllBefore(at, p)
    ensures at != [] ==> TriedUpTo(lists, at, at[|at| - 1].capability, at[|at| - 1].candidate)
  {
    if at != [] {
      assert Earlier(at[|at| - 1], p);
    }
  }

  lemma TriedMore(lists: seq<seq<string>>, before: seq<Position>, after: seq<Position>, k: nat, c: nat)
    requires TriedUpTo(lists, before, k, c) && before <= after && Tried(after, k, c)
    ensures TriedUpTo(lists, after, k, c + 1)
  {
    forall x: nat, y: nat | x < |lists| && y < |lists[x]| && (x < k || (x == k && y < c + 1))
      ensures Tried(after, x, y)
    {
      if !(x == k && y == c) {
        assert Tried(before, x, y);
        var i :| 0 <= i < |before| && before[i].capability == x && before[i].candidate == y;
        assert after[i] == before[i];
      }
    }
  }

  /**
   Walk the chain. The trail returned says where each attempt stands; a result without success means the cap
   was reached or every listed candidate of every capability was tried.
   */
  method SendTaskWithRecovery(primary: string, stepFallbacks: seq<string>, explicitTo: Option<string>, policy: Policy,
                              found: nat -> seq<string>, answer: (nat, string, string) -> Try)
    returns (r: Result, ghost lists: seq<seq<string>>, ghost at: seq<Position>)
    ensures Audited(WorldOf(primary, stepFallbacks, explicitTo, policy, found, answer), r)
    ensures var w := WorldOf(primary, stepFallbacks, explicitTo, policy, found, answer);
            StoppedWell(w, lists, r, at) && (r.Exhausted? ==> Capped(w, r.attempts) || WalkedAll(w, lists, r, at))
  {
    var w := WorldOf(primary, stepFallbacks, explicitTo, policy, found, answer);
    var attempts: seq<Attempt> := [];
    var failedAgents: set<string> := {};
    lists, at := [], [];
    for k := 0 to |w.chain|
      invariant |lists| == k && Between(w, lists, attempts, at, Position(k, 0, 0))
      invariant w.policy.excludeFailedAgents ==> failedAgents == AgentsTried(attempts)
    {
      var candidates := w.Candidates(k);
      if w.policy.excludeFailedAgents {
        candidates := Without(candidates, failedAgents);
      }
      BeginCapability(w, lists, attempts, at, k, candidates);
      lists := lists + [candidates];
      var stop;
      stop, attempts, failedAgents, at := TryCandidates(w, k, candidates, attempts, failedAgents, lists, at);
      if stop.Some? {
        RunIsAudited(w, lists, stop.value, at);
        return stop.value, lists, at;
      }
    }
    r := Exhausted(attempts);
    TriedSoFar(lists, at, Position(|w.chain|, 0, 0));
    RunIsAudited(w, lists, r, at);
  }

  /** Before the first try for a capability, everything tried was tried for an earlier one. */
  lemma AllTriedBefore(attempts: seq<Attempt>, at: seq<Position>, k: nat)
    requires |at| == |attempts| && AllBefore(at, Position(k, 0, 0))
    ensures AgentsBefore(attempts, at, k) == AgentsTried(attempts)
  {
    forall i | 0 <= i < |attempts| ensures at[i].capability < k && attempts[i].agent in AgentsTried(attempts) {
      assert attempts[i] in attempts && Earlier(at[i], Position(k, 0, 0));
    }
    forall a | a in attempts ensures a.agent in AgentsBefore(attempts, at, k) {
      var i :| 0 <= i < |attempts| && attempts[i] == a;
    }
  }

  lemma BeginCapability(w: World, lists: seq<seq<string>>, attempts: seq<Attempt>, at: seq<Position>, k: nat,
                        list: seq<string>)
    requires k == |lists| < |w.chain| && Between(w, lists, attempts, at, Position(k, 0, 0))
    requires list == if w.policy.excludeFailedAgents then Without(w.Candidates(k), AgentsTried(attempts))
                     else w.Candidates(k)
    ensures Between(w, lists + [list], attempts, at, Position(k, 0, 0))
  {
    PushList(w, lists, attempts, at, list);
    AllTriedBefore(attempts, at, k);
    assert list == Offered(w, k, attempts, at);
    var more := lists + [list];
    assert ListsFaithful(w, more, attempts, at);
    forall x: nat, y: nat | x < |more| && y < |more[x]| && (x < k || (x == k && y < 0)) ensures Tried(at, x, y) {
      assert more[x] == lists[x];
    }
  }

  // ----- What the audit trail shows -----

  /** Positions between two turns of one candidate are turns of that candidate, numbered without gaps. */
  lemma {:induction false} TurnsAreABlock(w: World, lists: seq<seq<string>>, attempts: seq<Attempt>,
                                          at: seq<Position>, i: nat, j: nat)
    requires TrailOk(w, lists, attempts, at) && i <= j < |at| && SameAgentTurns(at[i], at[j])
    ensures forall m :: i <= m <= j ==> SameAgentTurns(at[i], at[m]) && at[m].turn == at[i].turn + (m - i)
    decreases j
  {
    if i == j {
    } else {
      assert Earlier(at[i], at[j]) && Earlier(at[j - 1], at[j]);
      assert i < j - 1 ==> Earlier(at[i], at[j - 1]);
      assert SameAgentTurns(at[i], at[j - 1]);
      TurnsAreABlock(w, lists, attempts, at, i, j - 1);
    }
  }

  /** Each capability offers every agent at most once. */
  ghost predicate DistinctCandidates(w: World) {
    forall k :: 0 <= k < |w.chain| ==> Distinct(w.Candidates(k))
  }

  lemma SamePlace(w: World, lists: seq<seq<string>>, attempts: seq<Attempt>, at: seq<Position>, i: nat, j: nat)
    requires TrailOk(w, lists, attempts, at) && ListsFaithful(w, lists, attempts, at) && DistinctCandidates(w)
    requires i < j < |at| && attempts[i].agent == attempts[j].agent
    requires w.policy.excludeFailedAgents || at[i].capability == at[j].capability
    ensures SameAgentTurns(at[i], at[j])
  {
    assert Earlier(at[i], at[j]) && PositionOk(w, lists, attempts[i], at[i]) &&
           PositionOk(w, lists, attempts[j], at[j]);
    var k := at[j].capability;
    assert lists[k] == Offered(w, k, attempts, at) && Distinct(w.Candidates(k));
    assert attempts[j].agent in lists[k];
    TriedBefore(attempts, at, i, k);
  }

  /**
   With failed agents excluded and no repeated candidates, the tries of one agent form a single block of at most
   the allowed length, all under one capability.
   */
  lemma OneBlockPerAgent(w: World, lists: seq<seq<string>>, r: Result, at: seq<Position>, i: nat, j: nat)
    requires StoppedWell(w, lists, r, at) && DistinctCandidates(w) && w.policy.excludeFailedAgents
    requires i < j < |r.attempts| && r.attempts[i].agent == r.attempts[j].agent
    ensures j - i < w.policy.maxAttemptsPerAgent
    ensures forall m :: i <= m <= j ==>
            r.attempts[m].agent == r.attempts[i].agent && r.attempts[m].capability == r.attempts[i].capability
  {
    BlockOf(w, lists, r.attempts, at, i, j);
  }

  /** Without exclusion the same holds under each capability separately. */
  lemma OneBlockPerCapability(w: World, lists: seq<seq<string>>, r: Result, at: seq<Position>, i: nat, j: nat)
    requires StoppedWell(w, lists, r, at) && DistinctCandidates(w) && Distinct(w.chain)
    requires i < j < |r.attempts| && r.attempts[i].agent == r.attempts[j].agent &&
             r.attempts[i].capability == r.attempts[j].capability
    ensures j - i < w.policy.maxAttemptsPerAgent
    ensures forall m :: i <= m <= j ==>
            r.attempts[m].agent == r.attempts[i].agent && r.attempts[m].capability == r.attempts[i].capability
  {
    assert PositionOk(w, lists, r.attempts[i], at[i]) && PositionOk(w, lists, r.attempts[j], at[j]);
    assert at[i].capability == at[j].capability;
    BlockOf(w, lists, r.attempts, at, i, j);
  }

  lemma BlockOf(w: World, lists: seq<seq<string>>, attempts: seq<Attempt>, at: seq<Position>, i: nat, j: nat)
    requires TrailOk(w, lists, attempts, at) && ListsFaithful(w, lists, attempts, at) && DistinctCandidates(w)
    requires i < j < |at| && attempts[i].agent == attempts[j].agent
    requires w.policy.excludeFailedAgents || at[i].capability == at[j].capability
    ensures j - i < w.policy.maxAttemptsPerAgent
    ensures forall m :: i <= m <= j ==>
            attempts[m].agent == attempts[i].agent && attempts[m].capability == attempts[i].capability
  {
    SamePlace(w, lists, attempts, at, i, j);
    TurnsAreABlock(w, lists, attempts, at, i, j);
    assert PositionOk(w, lists, attempts[i], at[i]) && PositionOk(w, lists, attempts[j], at[j]);
    forall m | i <= m <= j
      ensures attempts[m].agent == attempts[i].agent && attempts[m].capability == attempts[i].capability
    {
      assert PositionOk(w, lists, attempts[m], at[m]) && SameAgentTurns(at[i], at[m]);
    }
  }

  /** A run that fails below the cap has tried every candidate of every capability of the chain. */
  lemma FailureTriedEveryone(w: World, lists: seq<seq<string>>, attempts: seq<Attempt>, at: seq<Position>, k: nat,
                             a: string)
    requires StoppedWell(w, lists, Exhausted(attempts), at)
    requires |lists| == |w.chain| && TriedUpTo(lists, at, |w.chain|, 0)
    requires k < |w.chain| && a in w.Candidates(k)
    ensures a in AgentsTried(attempts)
    ensures !w.policy.excludeFailedAgents ==>
            exists i :: 0 <= i < |attempts| && attempts[i].agent == a && attempts[i].capability == w.chain[k]
  {
    assert lists[k] == Offered(w, k, attempts, at);
    var i: nat;
    if a in lists[k] {
      var c: nat :| c < |lists[k]| && lists[k][c] == a;
      assert Tried(at, k, c);
      i :| i < |at| && at[i].capability == k && at[i].candidate == c;
      assert PositionOk(w, lists, attempts[i], at[i]);
    } else {
      assert a in AgentsBefore(attempts, at, k);
      i :| i < |attempts| && attempts[i].agent == a && at[i].capability < k;
    }
    assert attempts[i] in attempts;
  }

  /**
   Attempt `i` is numbered from one, tells the answer it got under a capability of the chain, and only the last can
   be a success.
   */
  ghost predicate AttemptOk(w: World, r: Result, i: nat)
    requires i < |r.attempts|
  {
    var a := r.attempts[i];
    a.number == i + 1 && a.capability in w.chain && a.outcome == w.answer(a.number, a.capability, a.agent) &&
    (a.outcome.Succeeded? <==> r.Success? && i == |r.attempts| - 1)
  }

  /** The tries of the agent of attempts `i` and `j` fill the places between them. */
  ghost predicate IsBlock(w: World, attempts: seq<Attempt>, i: nat, j: nat)
    requires i < j < |attempts|
  {
    j - i < w.policy.maxAttemptsPerAgent &&
    forall m :: i <= m <= j ==>
      attempts[m].agent == attempts[i].agent && attempts[m].capability == attempts[i].capability
  }

  /** What the audit list alone shows, whatever happened. */
  ghost predicate Audited(w: World, r: Result) {
    (forall i :: 0 <= i < |r.attempts| ==> AttemptOk(w, r, i)) &&
    (w.policy.maxTotalAttempts.Some? ==> |r.attempts| <= w.policy.maxTotalAttempts.value) &&
    (r.Success? ==>
      r.attempts != [] && r.selectedAgent == r.attempts[|r.attempts| - 1].agent &&
      r.selectedCapability == r.attempts[|r.attempts| - 1].capability) &&
    (DistinctCandidates(w) && w.policy.excludeFailedAgents ==>
      forall i: nat, j: nat :: i < j < |r.attempts| && r.attempts[i].agent == r.attempts[j].agent ==>
        IsBlock(w, r.attempts, i, j))
  }

  lemma RunIsAudited(w: World, lists: seq<seq<string>>, r: Result, at: seq<Position>)
    requires StoppedWell(w, lists, r, at)
    ensures Audited(w, r)
  {
    forall i | 0 <= i < |r.attempts| ensures AttemptOk(w, r, i) {
      assert PositionOk(w, lists, r.attempts[i], at[i]);
      if r.Success? && i < |r.attempts| - 1 {
        assert r.attempts[..|r.attempts| - 1][i] == r.attempts[i];
      }
    }
    if DistinctCandidates(w) && w.policy.excludeFailedAgents {
      forall i: nat, j: nat | i < j < |r.attempts| && r.attempts[i].agent == r.attempts[j].agent
        ensures IsBlock(w, r.attempts, i, j)
      {
        OneBlockPerAgent(w, lists, r, at, i, j);
      }
    }
  }

  // ----- The same in terms of what the caller gave -----

  /** The positions are exactly those of first occurrences. */
  ghost predicate AreFirsts(s: seq<string>, idx: seq<nat>) {
    forall j: nat :: j < |s| ==> (j in idx <==> s[j] !in s[..j])
  }

  lemma FirstsMore(s: seq<string>, idx: seq<nat>, x: string)
    requires AreFirsts(s, idx) && forall j :: j in idx ==> j < |s|
    ensures AreFirsts(s + [x], if x in s then idx else idx + [|s|])
  {
    forall j: nat | j <= |s| ensures (s + [x])[..j] == s[..j] {
    }
  }

  /** Exactly the first occurrences are kept, in order. */
  lemma {:induction false} DeduplicateSelects(s: seq<string>) returns (idx: seq<nat>)
    ensures Selects(s, Deduplicate(s), idx) && AreFirsts(s, idx)
  {
    if s == [] {
      idx := [];
    } else {
      var front, last := s[..|s| - 1], s[|s| - 1];
      assert s == front + [last];
      var before := DeduplicateSelects(front);
      SelectsMore(front, Deduplicate(front), before, last);
      FirstsMore(front, before, last);
      idx := if last in front then before else before + [|s| - 1];
    }
  }

  ghost predicate AreKept(s: seq<string>, failed: set<string>, idx: seq<nat>) {
    forall j: nat :: j < |s| ==> (j in idx <==> s[j] !in failed)
  }

  lemma KeptMore(s: seq<string>, r: seq<string>, failed: set<string>, idx: seq<nat>, x: string)
    requires Selects(s, r, idx) && AreKept(s, failed, idx)
    ensures x in failed ==> Selects(s + [x], r, idx) && AreKept(s + [x], failed, idx)
    ensures x !in failed ==> Selects(s + [x], r + [x], idx + [|s|]) && AreKept(s + [x], failed, idx + [|s|])
  {
    SelectsMore(s, r, idx, x);
    assert forall j :: j in idx ==> j < |s|;
  }

  lemma WithoutStep(s: seq<string>, failed: set<string>, idx: seq<nat>, x: string) returns (more: seq<nat>)
    requires Selects(s, Without(s, failed), idx) && AreKept(s, failed, idx)
    ensures Selects(s + [x], Without(s + [x], failed), more) && AreKept(s + [x], failed, more)
  {
    assert (s + [x])[..|s|] == s;
    KeptMore(s, Without(s, failed), failed, idx, x);
    more := if x in failed then idx else idx + [|s|];
  }

  /** Exactly the agents that did not fail are kept, in order. */
  lemma {:induction false} WithoutSelects(s: seq<string>, failed: set<string>) returns (idx: seq<nat>)
    ensures Selects(s, Without(s, failed), idx) && AreKept(s, failed, idx)
  {
    if s == [] {
      idx := [];
    } else {
      var front, last := s[..|s| - 1], s[|s| - 1];
      assert s == front + [last];
      var before := WithoutSelects(front, failed);
      idx := WithoutStep(front, failed, before, last);
    }
  }

  /**
   The chain: the primary capability first, then the fallbacks of the step, then those of the policy, each at its
   first occurrence.
   */
  lemma ChainInOrder(primary: string, stepFallbacks: seq<string>, policy: Policy)
    returns (all: seq<string>, idx: seq<nat>)
    ensures policy.fallbackCapabilities.None? ==> all == [primary] + stepFallbacks
    ensures policy.fallbackCapabilities.Some? ==> all == [primary] + stepFallbacks + policy.fallbackCapabilities.value
    ensures var chain := BuildCapabilityChain(primary, stepFallbacks, policy);
            chain != [] && chain[0] == primary && Distinct(chain) && Selects(all, chain, idx) && AreFirsts(all, idx)
  {
    all := [primary] + stepFallbacks +
           if policy.fallbackCapabilities.Some? then policy.fallbackCapabilities.value else [];
    idx := DeduplicateSelects(all);
    assert all[..0] == [] && 0 in idx;
  }

  /** The agents a capability is offered to before any are excluded. */
  ghost predicate IsSource(explicitTo: Option<string>, policy: Policy, found: seq<string>, source: seq<string>) {
    (explicitTo.Some? ==> source == [explicitTo.value]) &&
    (explicitTo.None? && policy.fallbackAgents.Some? && policy.fallbackAgents.value != [] ==>
      source == policy.fallbackAgents.value) &&
    (explicitTo.None? && (policy.fallbackAgents.None? || policy.fallbackAgents.value == []) ==> source == found)
  }

  ghost predicate TriedEarlier(attempts: seq<Attempt>, at: seq<Position>, k: nat, agent: string) {
    exists i :: 0 <= i < |attempts| == |at| && at[i].capability < k && attempts[i].agent == agent
  }

  /**
   Who is tried for a capability: the explicit recipient alone, else the policy's agents in their order, else those
   found, and unless the policy says otherwise without the agents tried for an earlier capability. The attempts
   walk this list.
   */
  lemma CandidatesInOrder(primary: string, stepFallbacks: seq<string>, explicitTo: Option<string>, policy: Policy,
                          found: nat -> seq<string>, answer: (nat, string, string) -> Try,
                          lists: seq<seq<string>>, r: Result, at: seq<Position>, k: nat)
    returns (source: seq<string>, idx: seq<nat>)
    requires StoppedWell(WorldOf(primary, stepFallbacks, explicitTo, policy, found, answer), lists, r, at)
    requires k < |lists|
    ensures IsSource(explicitTo, policy, found(k), source) && Selects(source, lists[k], idx)
    ensures policy.excludeFailedAgents == Some(false) ==> lists[k] == source
    ensures policy.excludeFailedAgents != Some(false) ==>
              forall j: nat :: j < |source| ==> (j in idx <==> !TriedEarlier(r.attempts, at, k, source[j]))
    ensures forall i :: 0 <= i < |r.attempts| && at[i].capability == k ==>
              at[i].candidate < |lists[k]| && r.attempts[i].agent == lists[k][at[i].candidate]
  {
    var w := WorldOf(primary, stepFallbacks, explicitTo, policy, found, answer);
    source := w.Candidates(k);
    assert lists[k] == Offered(w, k, r.attempts, at);
    forall i | 0 <= i < |r.attempts| && at[i].capability == k
      ensures at[i].candidate < |lists[k]| && r.attempts[i].agent == lists[k][at[i].candidate]
    {
      assert PositionOk(w, lists, r.attempts[i], at[i]);
    }
    if policy.excludeFailedAgents == Some(false) {
      idx := seq(|source|, i => i);
    } else {
      idx := WithoutSelects(source, AgentsBefore(r.attempts, at, k));
    }
  }

  /** With an explicit recipient nobody else is ever tried. */
  lemma ExplicitRecipientOnly(primary: string, stepFallbacks: seq<string>, to: string, policy: Policy,
                              found: nat -> seq<string>, answer: (nat, string, string) -> Try,
                              lists: seq<seq<string>>, r: Result, at: seq<Position>, i: nat)
    requires StoppedWell(WorldOf(primary, stepFallbacks, Some(to), policy, found, answer), lists, r, at)
    requires i < |r.attempts|
    ensures r.attempts[i].agent == to
  {
    var w := WorldOf(primary, stepFallbacks, Some(to), policy, found, answer);
    assert PositionOk(w, lists, r.attempts[i], at[i]);
    var source, idx := CandidatesInOrder(primary, stepFallbacks, Some(to), policy, found, answer, lists, r, at,
                                         at[i].capability);
  }

  /** Which failures are retried: transport codes that are listed or default, task codes unless a list omits them. */
  ghost predicate Retried(policy: Policy, t: Try) {
    match t
    case TransportError(code) =>
      if policy.retryableTransportErrorCodes.Some? then code in policy.retryableTransportErrorCodes.value
      else code == "ROUTING_NO_RECIPIENT" || code == "ROUTING_AGENT_NOT_REGISTERED" ||
           code == "ROUTING_DELIVERY_FAILED" || code == "RUNTIME_RESPONSE_TIMEOUT" || code == "RUNTIME_SEND_FAILED"
    case TaskError(code) =>
      policy.retryableTaskErrorCodes.None? || policy.retryableTaskErrorCodes.value == [] ||
      code in policy.retryableTaskErrorCodes.value
    case Succeeded => false
  }

  /** The tries allowed to one candidate: one unless the policy allows more. */
  ghost predicate AllowsTry(policy: Policy, turn: nat) {
    turn == 1 || (policy.maxAttemptsPerAgent.Some? && 1 <= turn <= policy.maxAttemptsPerAgent.value)
  }

  lemma RetryMeans(policy: Policy, t: Try, turn: nat)
    requires turn >= 1
    ensures IsRetryable(Normalize(policy), t) <==> Retried(policy, t)
    ensures turn <= Normalize(policy).maxAttemptsPerAgent <==> AllowsTry(policy, turn)
  {
    var codes := DEFAULT_RETRYABLE_TRANSPORT_ERROR_CODES;
    assert codes[0] in codes && codes[1] in codes && codes[2] in codes && codes[3] in codes && codes[4] in codes;
  }

  /**
   When a candidate is tried again: attempt `i + 1` is a further try of the same candidate if and only if attempt
   `i` failed in a way the policy retries and the policy allows one more try.
   */
  lemma RetriesFollowPolicy(primary: string, stepFallbacks: seq<string>, explicitTo: Option<string>, policy: Policy,
                            found: nat -> seq<string>, answer: (nat, string, string) -> Try,
                            lists: seq<seq<string>>, r: Result, at: seq<Position>, i: nat)
    requires StoppedWell(WorldOf(primary, stepFallbacks, explicitTo, policy, found, answer), lists, r, at)
    requires i < |r.attempts|
    ensures AllowsTry(policy, at[i].turn)
    ensures i + 1 < |r.attempts| ==>
              (SameAgentTurns(at[i], at[i + 1]) <==>
                Retried(policy, r.attempts[i].outcome) && AllowsTry(policy, at[i].turn + 1)) &&
              at[i + 1].turn == if SameAgentTurns(at[i], at[i + 1]) then at[i].turn + 1 else 1
  {
    var w := WorldOf(primary, stepFallbacks, explicitTo, policy, found, answer);
    assert PositionOk(w, lists, r.attempts[i], at[i]);
    RetryMeans(policy, r.attempts[i].outcome, at[i].turn);
    RetryMeans(policy, r.attempts[i].outcome, at[i].turn + 1);
    if i + 1 < |r.attempts| {
      assert SameAgentTurns(at[i], at[i + 1]) <==> MayRetry(w, r.attempts[i], at[i]);
    }
  }

  /**
   When a run gives up: it has made as many attempts as a positive cap allows, or it has tried every listed
   candidate of every capability and the last try may not be retried.
   */
  lemma GivesUpOnlyThen(primary: string, stepFallbacks: seq<string>, explicitTo: Option<string>, policy: Policy,
                        found: nat -> seq<string>, answer: (nat, string, string) -> Try,
                        lists: seq<seq<string>>, r: Result, at: seq<Position>)
    requires var w := WorldOf(primary, stepFallbacks, explicitTo, policy, found, answer);
             StoppedWell(w, lists, r, at) && (r.Exhausted? ==> Capped(w, r.attempts) || WalkedAll(w, lists, r, at))
    ensures policy.maxTotalAttempts.Some? && policy.maxTotalAttempts.value > 0 ==>
              |r.attempts| <= policy.maxTotalAttempts.value
    ensures r.Exhausted? ==>
              (policy.maxTotalAttempts == Some(|r.attempts|) && r.attempts != []) ||
              (|lists| == |BuildCapabilityChain(primary, stepFallbacks, policy)| &&
               (forall k: nat, c: nat :: k < |lists| && c < |lists[k]| ==> Tried(at, k, c)) &&
               (r.attempts != [] ==>
                 var last := |r.attempts| - 1;
                 !(Retried(policy, r.attempts[last].outcome) && AllowsTry(policy, at[last].turn + 1))))
  {
    var w := WorldOf(primary, stepFallbacks, explicitTo, policy, found, answer);
    if r.Exhausted? && WalkedAll(w, lists, r, at) && r.attempts != [] {
      var last := |r.attempts| - 1;
      assert PositionOk(w, lists, r.attempts[last], at[last]);
      RetryMeans(policy, r.attempts[last].outcome, at[last].turn + 1);
    }
  }
}
