/**
 Dependency entries kept with repetition and in order, as the in-degree counters and child lists
 of the two Kahn-style walks see them. An entry `(a, b)` says that `b` waits for `a`.
 */
module DependencyCounts {
  import opened Graphs

  type Entries = seq<(string, string)>

  /** Targets of the entries that leave `a`, repetitions included. */
  function Targets(entries: Entries, a: string): seq<string> {
    if entries == [] then [] else
      var last := entries[|entries| - 1];
      Targets(entries[..|entries| - 1], a) + if last.0 == a then [last.1] else []
  }

  /** How many entries into `x` come from a node outside `done`. */
  function Remaining(entries: Entries, done: set<string>, x: string): nat {
    if entries == [] then 0 else
      var last := entries[|entries| - 1];
      Remaining(entries[..|entries| - 1], done, x) + if last.1 == x && last.0 !in done then 1 else 0
  }

  function EdgesOf(entries: Entries): Edges {
    set e | e in entries
  }

  function ChildrenOf(children: map<string, seq<string>>, a: string): seq<string> {
    if a in children then children[a] else []
  }

  lemma AppendEntry(entries: Entries, e: (string, string))
    ensures forall a :: Targets(entries + [e], a) == Targets(entries, a) + if e.0 == a then [e.1] else []
    ensures forall done, x ::
      Remaining(entries + [e], done, x) ==
      Remaining(entries, done, x) + if e.1 == x && e.0 !in done then 1 else 0
  {
    assert (entries + [e])[..|entries|] == entries;
  }

  lemma {:induction false} TargetsAreEntries(entries: Entries, a: string)
    ensures forall x :: x in Targets(entries, a) <==> (a, x) in entries
  {
    if entries == [] {
    } else {
      var front, last := entries[..|entries| - 1], entries[|entries| - 1];
      TargetsAreEntries(front, a);
      assert forall x :: (a, x) in entries <==> (a, x) in front || (a, x) == last;
    }
  }

  lemma {:induction false} RemainingZero(entries: Entries, done: set<string>, x: string)
    ensures Remaining(entries, done, x) == 0 <==> forall a :: (a, x) in entries ==> a in done
  {
    if entries == [] {
    } else {
      var front, last := entries[..|entries| - 1], entries[|entries| - 1];
      RemainingZero(front, done, x);
      assert forall a :: (a, x) in entries <==> (a, x) in front || (a, x) == last;
    }
  }

  /** Finishing `d` releases each of its targets once per entry. */
  lemma {:induction false} RemainingAfter(entries: Entries, done: set<string>, d: string, x: string)
    requires d !in done
    ensures Remaining(entries, done + {d}, x) + multiset(Targets(entries, d))[x] == Remaining(entries, done, x)
  {
    if entries == [] {
    } else {
      RemainingAfter(entries[..|entries| - 1], done, d, x);
    }
  }

  lemma {:induction false} RemainingShrinks(entries: Entries, done: set<string>, more: set<string>, x: string)
    requires done <= more
    ensures Remaining(entries, more, x) <= Remaining(entries, done, x)
  {
    if entries == [] {
    } else {
      RemainingShrinks(entries[..|entries| - 1], done, more, x);
    }
  }

  // ----- The counters of a Kahn-style walk -----

  ghost predicate ChildrenMatch(entries: Entries, children: map<string, seq<string>>) {
    forall a :: ChildrenOf(children, a) == Targets(entries, a)
  }

  /** Every listed child has a counter. */
  ghost predicate ChildrenCounted(children: map<string, seq<string>>, inDegree: map<string, int>) {
    forall a, c :: c in ChildrenOf(children, a) ==> c in inDegree
  }

  /** Each counter holds the number of entries still to be released. */
  ghost predicate CountsMatch(entries: Entries, done: set<string>, inDegree: map<string, int>) {
    forall x :: x in inDegree ==> inDegree[x] == Remaining(entries, done, x)
  }

  /** Put one more target into the child lists. */
  method AddChild(dep: string, id: string, lists: map<string, seq<string>>, ghost seen: Entries)
    returns (children: map<string, seq<string>>)
    requires ChildrenMatch(seen, lists)
    ensures ChildrenMatch(seen + [(dep, id)], children)
  {
    children := lists[dep := ChildrenOf(lists, dep) + [id]];
    AppendEntry(seen, (dep, id));
  }

  /** Counting one more entry keeps counters and child lists in step with the entries seen. */
  method CountEntry(dep: string, id: string, degrees: map<string, int>, lists: map<string, seq<string>>,
                    ghost seen: Entries)
    returns (inDegree: map<string, int>, children: map<string, seq<string>>)
    requires CountsMatch(seen, {}, degrees) && ChildrenMatch(seen, lists) && id in degrees
    ensures inDegree.Keys == degrees.Keys
    ensures CountsMatch(seen + [(dep, id)], {}, inDegree)
    ensures ChildrenMatch(seen + [(dep, id)], children)
  {
    inDegree := degrees[id := degrees[id] + 1];
    children := AddChild(dep, id, lists, seen);
    AppendEntry(seen, (dep, id));
  }

  /** Counting down once per target of `d` is what finishing `d` means. */
  lemma CountsAfter(entries: Entries, done: set<string>, d: string, before: map<string, int>, after: map<string, int>)
    requires CountsMatch(entries, done, before) && d !in done && before.Keys == after.Keys
    requires forall x :: x in after ==> after[x] == before[x] - multiset(Targets(entries, d))[x]
    ensures CountsMatch(entries, done + {d}, after)
  {
    forall x | x in after ensures after[x] == Remaining(entries, done + {d}, x) {
      RemainingAfter(entries, done, d, x);
    }
  }

  function Positive(inDegree: map<string, int>): set<string> {
    set x | x in inDegree && inDegree[x] > 0
  }

  /** `queue` lists, once each, the nodes whose counter fell to zero between `before` and `after`. */
  ghost predicate Released(before: map<string, int>, after: map<string, int>, queue: seq<string>) {
    Distinct(queue) && before.Keys == after.Keys &&
    (forall x :: x in before ==> after[x] <= before[x]) &&
    forall x :: x in queue <==> x in before && before[x] > 0 && after[x] <= 0
  }

  lemma ReleaseOne(before: map<string, int>, degrees: map<string, int>, queue: seq<string>, child: string)
    requires Released(before, degrees, queue) && child in degrees
    ensures var after := degrees[child := degrees[child] - 1];
            Released(before, after, if after[child] == 0 then queue + [child] else queue)
  {
    if degrees[child] == 1 {
      assert child !in queue;
    }
  }

  /** `released[k]` fell to zero at its occurrence `last[k]`, the last one unless it fell below; they stand in order. */
  ghost predicate LastOccurrences(kids: seq<string>, released: seq<string>, last: seq<nat>,
                                  inDegree: map<string, int>) {
    |last| == |released| && (forall i, k :: 0 <= i < k < |last| ==> last[i] < last[k]) &&
    forall k :: 0 <= k < |last| ==>
      last[k] < |kids| && kids[last[k]] == released[k] && released[k] in inDegree && inDegree[released[k]] <= 0 &&
      (inDegree[released[k]] == 0 ==> forall l :: last[k] < l < |kids| ==> kids[l] != released[k])
  }

  lemma OneOccurrence(kids: seq<string>, released: seq<string>, last: seq<nat>, before: map<string, int>,
                      child: string)
    requires LastOccurrences(kids, released, last, before) && child in before
    ensures var after := before[child := before[child] - 1];
            if after[child] == 0 then LastOccurrences(kids + [child], released + [child], last + [|kids|], after)
            else LastOccurrences(kids + [child], released, last, after)
  {
  }

  /** The state after counting down `kids`: those in `released` reached zero and joined `queue`. */
  ghost predicate CountedDown(kids: seq<string>, degrees: map<string, int>, before: map<string, int>,
                              inDegree: map<string, int>, queue: seq<string>, released: seq<string>, last: seq<nat>) {
    Released(before, inDegree, queue + released) && inDegree.Keys == degrees.Keys &&
    (forall x :: x in inDegree ==> inDegree[x] == degrees[x] - multiset(kids)[x]) &&
    LastOccurrences(kids, released, last, inDegree)
  }

  lemma CountDownOne(kids: seq<string>, degrees: map<string, int>, before: map<string, int>,
                     inDegree: map<string, int>, queue: seq<string>, released: seq<string>, last: seq<nat>,
                     child: string)
    requires CountedDown(kids, degrees, before, inDegree, queue, released, last) && child in inDegree
    ensures var after := inDegree[child := inDegree[child] - 1];
            if after[child] == 0
            then CountedDown(kids + [child], degrees, before, after, queue, released + [child], last + [|kids|])
            else CountedDown(kids + [child], degrees, before, after, queue, released, last)
  {
    ReleaseOne(before, inDegree, queue + released, child);
    OneOccurrence(kids, released, last, inDegree, child);
    assert queue + released + [child] == queue + (released + [child]);
    assert multiset(kids + [child]) == multiset(kids) + multiset{child};
  }

  /** Count down the children of one finished node; those that reach zero join `queue`. */
  method ReleaseChildren(kids: seq<string>, degrees: map<string, int>, queue: seq<string>,
                         ghost before: map<string, int>)
    returns (inDegree: map<string, int>, next: seq<string>, ghost released: seq<string>, ghost last: seq<nat>)
    requires forall c :: c in kids ==> c in degrees
    requires Released(before, degrees, queue)
    ensures Released(before, inDegree, next) && next == queue + released
    ensures forall x :: x in inDegree ==> inDegree[x] == degrees[x] - multiset(kids)[x]
    ensures LastOccurrences(kids, released, last, inDegree)
  {
    inDegree, next, released, last := degrees, queue, [], [];
    assert queue + [] == queue;
    ghost var counted: seq<string> := [];
    for j := 0 to |kids|
      invariant counted == kids[..j] && next == queue + released
      invariant CountedDown(counted, degrees, before, inDegree, queue, released, last)
    {
      PrefixGrows(kids, j);
      inDegree, next, released, last :=
        CountDown(kids[j], degrees, inDegree, next, before, counted, queue, released, last);
      counted := counted + [kids[j]];
    }
    assert kids[..|kids|] == kids;
  }

  lemma PrefixGrows(kids: seq<string>, j: nat)
    requires j < |kids|
    ensures kids[..j + 1] == kids[..j] + [kids[j]]
  {
  }

  /** Count one child down. */
  method CountDown(child: string, ghost degrees: map<string, int>, inDegree0: map<string, int>, next0: seq<string>,
                   ghost before: map<string, int>, ghost counted: seq<string>, ghost queue: seq<string>,
                   ghost released0: seq<string>, ghost last0: seq<nat>)
    returns (inDegree: map<string, int>, next: seq<string>, ghost released: seq<string>, ghost last: seq<nat>)
    requires CountedDown(counted, degrees, before, inDegree0, queue, released0, last0) && child in inDegree0
    requires next0 == queue + released0
    ensures CountedDown(counted + [child], degrees, before, inDegree, queue, released, last)
    ensures next == queue + released
  {
    CountDownOne(counted, degrees, before, inDegree0, queue, released0, last0, child);
    next, released, last := next0, released0, last0;
    var nextDegree := inDegree0[child] - 1;
    inDegree := inDegree0[child := nextDegree];
    if nextDegree == 0 {
      next, released, last := next + [child], released + [child], last + [|counted|];
    }
  }
}
