/**
 The orders in which the two kinds of queue-driven walks list nodes. A release walk lists a node once all entries
 into it were seen, a discovery walk at the first entry into it; entries are seen source by source in the order of
 the list, and for one source in their own order.
 */
module WalkOrders {
  import opened Graphs
  import opened DependencyCounts

  /** `a` occurs in `s` before some occurrence of `b`. */
  ghost predicate Before(s: seq<string>, a: string, b: string) {
    exists i, j :: 0 <= i < j < |s| && s[i] == a && s[j] == b
  }

  lemma BeforeMembers(s: seq<string>, a: string, b: string)
    requires Before(s, a, b)
    ensures a in s && b in s
  {
  }

  lemma BeforeStays(s: seq<string>, more: seq<string>, a: string, b: string)
    requires Before(s, a, b)
    ensures Before(s + more, a, b)
  {
    var i, j :| 0 <= i < j < |s| && s[i] == a && s[j] == b;
    assert (s + more)[i] == a && (s + more)[j] == b;
  }

  lemma BeforeLast(s: seq<string>, x: string, a: string, b: string)
    ensures Before(s + [x], a, b) <==> Before(s, a, b) || (x == b && a in s)
  {
    var t := s + [x];
    if Before(t, a, b) {
      var i, j :| 0 <= i < j < |t| && t[i] == a && t[j] == b;
      if j < |s| {
        assert s[i] == a && s[j] == b;
      } else {
        assert s[i] == a;
      }
    }
    if Before(s, a, b) {
      BeforeStays(s, [x], a, b);
    }
    if x == b && a in s {
      BeforeAcross(s, [x], a, b);
    }
  }

  lemma BeforeAcross(s: seq<string>, more: seq<string>, a: string, b: string)
    requires a in s && b in more
    ensures Before(s + more, a, b)
  {
    var i :| 0 <= i < |s| && s[i] == a;
    var j :| 0 <= j < |more| && more[j] == b;
    assert (s + more)[i] == a && (s + more)[|s| + j] == b;
  }

  /** Where `x` stands before `y` in a list without repetition that is continued. */
  lemma BeforeSplit(s: seq<string>, more: seq<string>, x: string, y: string)
    requires Distinct(s + more) && Before(s + more, x, y)
    ensures y in s ==> Before(s, x, y)
    ensures y !in s ==> y in more && (x in s || Before(more, x, y))
  {
    DistinctParts(s, more);
    var i, j :| 0 <= i < j < |s + more| && (s + more)[i] == x && (s + more)[j] == y;
    if j < |s| {
      assert s[i] == x && s[j] == y;
    } else {
      assert more[j - |s|] == y && y in Elements(more);
      if i < |s| {
        assert s[i] == x;
      } else {
        assert more[i - |s|] == x;
      }
    }
  }

  /** Moving one node over, and adding more. */
  lemma MoveOver(done: seq<string>, current: string, rest: seq<string>, more: seq<string>)
    ensures done + [current] + (rest + more) == done + ([current] + rest) + more
  {
    assert [current] + (rest + more) == ([current] + rest) + more;
    Regroup(done, [current], rest + more);
    Regroup(done, [current] + rest, more);
  }

  lemma Regroup(a: seq<string>, b: seq<string>, c: seq<string>)
    ensures (a + b) + c == a + (b + c)
  {
  }

  // ----- Release order -----

  /** Entry `m` is seen before entry `n`. */
  ghost predicate SeenBefore(entries: Entries, order: seq<string>, m: int, n: int)
    requires 0 <= m < |entries| && 0 <= n < |entries|
  {
    Before(order, entries[m].0, entries[n].0) || (entries[m].0 == entries[n].0 && m < n)
  }

  /** Some entry into `y` is seen after entry `m`. */
  ghost predicate ReleasedAfter(entries: Entries, order: seq<string>, m: int, y: string)
    requires 0 <= m < |entries|
  {
    exists n :: 0 <= n < |entries| && entries[n].1 == y && SeenBefore(entries, order, m, n)
  }

  /**
   Nodes stand in the order in which the last entry into them is seen, and those without entries come first: when
   `x` stands before `y`, every entry into `x` is seen before some entry into `y`.
   */
  ghost predicate ReleaseOrder(entries: Entries, order: seq<string>) {
    forall x, y, m :: Before(order, x, y) && 0 <= m < |entries| && entries[m].1 == x ==>
      ReleasedAfter(entries, order, m, y)
  }

  /** The state of a release walk: `done` was taken from the queue, `waiting` is in it. */
  ghost predicate Releasing(entries: Entries, done: seq<string>, waiting: seq<string>) {
    Distinct(done + waiting) && ReleaseOrder(entries, done + waiting) &&
    forall e :: e in entries && e.1 in done + waiting ==> e.0 in done
  }

  lemma StartReleasing(entries: Entries, roots: seq<string>)
    requires Distinct(roots) && forall e :: e in entries ==> e.1 !in roots
    ensures Releasing(entries, [], roots)
  {
    assert [] + roots == roots;
    assert forall m :: 0 <= m < |entries| ==> entries[m] in entries && entries[m].1 !in roots;
    assert forall x, y :: Before(roots, x, y) ==> x in roots;
  }

  /** `last[k]` is the last entry from `current` into `found[k]`, and these entries stand in order. */
  ghost predicate LastEntries(entries: Entries, current: string, found: seq<string>, last: seq<nat>) {
    |last| == |found| && (forall i, k :: 0 <= i < k < |last| ==> last[i] < last[k]) &&
    (forall k :: 0 <= k < |last| ==> last[k] < |entries| && entries[last[k]] == (current, found[k])) &&
    forall k, m :: 0 <= k < |last| && last[k] < m < |entries| ==> entries[m] != (current, found[k])
  }

  /** Taking one node from the queue and releasing `found`. */
  lemma ReleaseStep(entries: Entries, done: seq<string>, current: string, rest: seq<string>, found: seq<string>,
                    last: seq<nat>)
    requires Releasing(entries, done, [current] + rest)
    requires Distinct(done + ([current] + rest) + found) && LastEntries(entries, current, found, last)
    requires forall e :: e in entries && e.1 in found ==> e.0 in done || e.0 == current
    ensures Releasing(entries, done + [current], rest + found)
  {
    var order := done + ([current] + rest);
    MoveOver(done, current, rest, found);
    forall x, y, m | Before(order + found, x, y) && 0 <= m < |entries| && entries[m].1 == x
      ensures ReleasedAfter(entries, order + found, m, y)
    {
      BeforeSplit(order, found, x, y);
      if y in order {
        SeenStays(entries, order, found, m, y);
      } else {
        ReleasedNow(entries, done, current, rest, found, last, x, y, m);
      }
    }
  }

  lemma SeenStays(entries: Entries, order: seq<string>, found: seq<string>, m: int, y: string)
    requires 0 <= m < |entries| && ReleasedAfter(entries, order, m, y)
    ensures ReleasedAfter(entries, order + found, m, y)
  {
    var n :| 0 <= n < |entries| && entries[n].1 == y && SeenBefore(entries, order, m, n);
    if Before(order, entries[m].0, entries[n].0) {
      BeforeStays(order, found, entries[m].0, entries[n].0);
    }
    assert SeenBefore(entries, order + found, m, n);
  }

  lemma ReleasedNow(entries: Entries, done: seq<string>, current: string, rest: seq<string>, found: seq<string>,
                    last: seq<nat>, x: string, y: string, m: int)
    requires Releasing(entries, done, [current] + rest) && LastEntries(entries, current, found, last)
    requires forall e :: e in entries && e.1 in found ==> e.0 in done || e.0 == current
    requires y in found && (x in done + ([current] + rest) || Before(found, x, y)) && Distinct(found)
    requires 0 <= m < |entries| && entries[m].1 == x
    ensures ReleasedAfter(entries, done + ([current] + rest) + found, m, y)
  {
    var order, a := done + ([current] + rest), entries[m].0;
    var k :| 0 <= k < |found| && found[k] == y;
    assert entries[m] in entries && entries[last[k]] == (current, y);
    if a in done {
      BeforeAcross(done, [current] + rest, a, current);
      BeforeStays(order, found, a, current);
    } else {
      BeforeMembers(found, x, y);
      assert a == current;
      var i, j :| 0 <= i < j < |found| && found[i] == x && found[j] == y;
      assert j == k && m <= last[i] < last[k];
    }
    assert SeenBefore(entries, order + found, m, last[k]);
  }

  /** Taking a node from the queue that releases nothing. */
  lemma ReleaseNothing(entries: Entries, done: seq<string>, current: string, rest: seq<string>)
    requires Releasing(entries, done, [current] + rest)
    ensures Releasing(entries, done + [current], rest)
  {
    assert done + [current] + rest == done + ([current] + rest);
  }

  /** The positions of the entries that leave `a`, and their targets. */
  ghost predicate ArePositions(entries: Entries, a: string, kids: seq<string>, idx: seq<nat>) {
    |idx| == |kids| && (forall i, j :: 0 <= i < j < |idx| ==> idx[i] < idx[j]) &&
    (forall i :: 0 <= i < |idx| ==> idx[i] < |entries| && entries[idx[i]] == (a, kids[i])) &&
    forall j: nat :: j < |entries| && entries[j].0 == a ==> j in idx
  }

  lemma MorePositions(entries: Entries, a: string, kids: seq<string>, idx: seq<nat>, e: (string, string))
    requires ArePositions(entries, a, kids, idx)
    ensures e.0 == a ==> ArePositions(entries + [e], a, kids + [e.1], idx + [|entries|])
    ensures e.0 != a ==> ArePositions(entries + [e], a, kids, idx)
  {
  }

  lemma {:induction false} TargetPositions(entries: Entries, a: string) returns (idx: seq<nat>)
    ensures ArePositions(entries, a, Targets(entries, a), idx)
  {
    if entries == [] {
      idx := [];
    } else {
      var front, e := entries[..|entries| - 1], entries[|entries| - 1];
      assert entries == front + [e];
      var before := TargetPositions(front, a);
      MorePositions(front, a, Targets(front, a), before, e);
      AppendEntry(front, e);
      idx := if e.0 == a then before + [|front|] else before;
    }
  }

  /** The last occurrences among the targets of `current` are last entries. */
  lemma LastTargets(entries: Entries, current: string, found: seq<string>, last: seq<nat>) returns (at: seq<nat>)
    requires var kids := Targets(entries, current);
             |last| == |found| && (forall i, k :: 0 <= i < k < |last| ==> last[i] < last[k]) &&
             (forall k :: 0 <= k < |last| ==> last[k] < |kids| && kids[last[k]] == found[k]) &&
             forall k, l :: 0 <= k < |last| && last[k] < l < |kids| ==> kids[l] != found[k]
    ensures LastEntries(entries, current, found, at)
  {
    var idx := TargetPositions(entries, current);
    at := seq(|last|, k requires 0 <= k < |last| => idx[last[k]]);
    forall k, m | 0 <= k < |at| && at[k] < m < |entries| ensures entries[m] != (current, found[k]) {
      if entries[m].0 == current {
        assert m in idx;
        var l :| 0 <= l < |idx| && idx[l] == m;
        assert entries[m] == (current, Targets(entries, current)[l]);
      }
    }
  }

  /** Taking one node from the queue in a walk whose counters hold the entries still unseen. */
  lemma ReleaseCounted(entries: Entries, done: seq<string>, current: string, rest: seq<string>, found: seq<string>,
                       last: seq<nat>, inDegree: map<string, int>)
    requires Releasing(entries, done, [current] + rest) && Distinct(done + ([current] + rest) + found)
    requires LastOccurrences(Targets(entries, current), found, last, inDegree)
    requires CountsMatch(entries, Elements(done) + {current}, inDegree)
    ensures Releasing(entries, done + [current], rest + found)
  {
    forall k | 0 <= k < |found| ensures inDegree[found[k]] == 0 {
      assert inDegree[found[k]] == Remaining(entries, Elements(done) + {current}, found[k]);
    }
    forall e | e in entries && e.1 in found ensures e.0 in done || e.0 == current {
      RemainingZero(entries, Elements(done) + {current}, e.1);
    }
    var at := LastTargets(entries, current, found, last);
    ReleaseStep(entries, done, current, rest, found, at);
  }

  // ----- Discovery order -----

  /** Some entry into `x` is seen before entry `n`. */
  ghost predicate DiscoveredBefore(entries: Entries, order: seq<string>, x: string, n: int)
    requires 0 <= n < |entries|
  {
    exists m :: 0 <= m < |entries| && entries[m].1 == x && SeenBefore(entries, order, m, n)
  }

  /** Entry `n` leads from a listed node to `y`; nothing is seen of the empty id. */
  ghost predicate IsEntry(entries: Entries, n: int, order: seq<string>, y: string) {
    0 <= n < |entries| && entries[n].0 in order && entries[n].0 != "" && entries[n].1 == y
  }

  /**
   Nodes stand in the order in which the first entry into them is seen: when `x` stands before `y`, and is not the
   start, some entry into `x` is seen before all entries into `y` from listed nodes.
   */
  ghost predicate DiscoveryOrder(entries: Entries, start: string, order: seq<string>) {
    forall x, y, n :: Before(order, x, y) && x != start && IsEntry(entries, n, order, y) ==>
      DiscoveredBefore(entries, order, x, n)
  }

  /** The state of a discovery walk; `done` nodes were taken from the queue, `waiting` nodes are in it. */
  ghost predicate Discovering(entries: Entries, start: string, done: seq<string>, waiting: seq<string>) {
    var order := done + waiting;
    order != [] && order[0] == start && Distinct(order) && DiscoveryOrder(entries, start, order) &&
    (forall x :: x in order && x != start ==> exists e :: e in entries && e.1 == x && e.0 in done) &&
    forall e :: e in entries && e.0 in done && e.0 != "" ==> e.1 in order
  }

  /** `first[k]` is the first entry from `current` into `found[k]`, and these entries stand in order. */
  ghost predicate FirstEntries(entries: Entries, current: string, found: seq<string>, first: seq<nat>) {
    |first| == |found| && (forall i, k :: 0 <= i < k < |first| ==> first[i] < first[k]) &&
    (forall k :: 0 <= k < |first| ==> first[k] < |entries| && entries[first[k]] == (current, found[k])) &&
    forall k, m :: 0 <= k < |first| && 0 <= m < first[k] ==> entries[m] != (current, found[k])
  }

  lemma StartDiscovering(entries: Entries, start: string)
    ensures Discovering(entries, start, [], [start])
  {
    assert [] + [start] == [start];
  }

  /** Taking one node from the queue and discovering `found`. */
  lemma DiscoverStep(entries: Entries, start: string, done: seq<string>, current: string, rest: seq<string>,
                     found: seq<string>, first: seq<nat>)
    requires Discovering(entries, start, done, [current] + rest)
    requires FirstEntries(entries, current, found, first)
    requires Distinct(found) && forall x :: x in found <==> (current, x) in entries && x !in done + ([current] + rest)
    ensures Discovering(entries, start, done + [current], rest + found)
  {
    var order := done + ([current] + rest);
    MoveOver(done, current, rest, found);
    DistinctAppend(order, found);
    forall x, y, n | Before(order + found, x, y) && x != start && IsEntry(entries, n, order + found, y)
      ensures DiscoveredBefore(entries, order + found, x, n)
    {
      BeforeSplit(order, found, x, y);
      if y in order && entries[n].0 in order {
        assert IsEntry(entries, n, order, y);
        DiscoveredStays(entries, order, found, x, n);
      } else if x in order || y in order {
        if y in order {
          BeforeMembers(order, x, y);
        }
        KnownIsEarlier(entries, start, done, current, rest, found, x, n);
      } else {
        FreshIsEarlier(entries, start, done, current, rest, found, first, x, y, n);
      }
    }
    forall x | x in order + found && x != start
      ensures exists e :: e in entries && e.1 == x && e.0 in done + [current]
    {
      if x in order {
        var e :| e in entries && e.1 == x && e.0 in done;
      } else {
        assert (current, x) in entries;
      }
    }
    forall e | e in entries && e.0 in done + [current] && e.0 != "" ensures e.1 in order + found {
      if e.0 !in done {
        assert e == (current, e.1);
      }
    }
  }

  /** Taking the empty id from the queue. */
  lemma DiscoverNothing(entries: Entries, start: string, done: seq<string>, rest: seq<string>)
    requires Discovering(entries, start, done, [""] + rest)
    ensures Discovering(entries, start, done + [""], rest)
  {
    assert done + [""] + rest == done + ([""] + rest);
  }

  /** `found` lists the unvisited targets of `current`, each at its first entry. */
  ghost predicate NewsOf(entries: Entries, current: string, visited: set<string>, found: seq<string>, first: seq<nat>) {
    FirstEntries(entries, current, found, first) && Distinct(found) &&
    forall x :: x in found <==> (current, x) in entries && x !in visited
  }

  /** Going through the entries one by one: a target is found at its first entry. */
  lemma FirstNew(entries: Entries, current: string, visited: set<string>, found: seq<string>, first: seq<nat>,
                 e: (string, string))
    requires NewsOf(entries, current, visited, found, first)
    requires e.0 == current && e.1 !in visited && e.1 !in found
    ensures NewsOf(entries + [e], current, visited, found + [e.1], first + [|entries|])
  {
    assert forall m :: 0 <= m < |entries| ==> entries[m] in entries;
    assert e !in entries;
    DistinctAppend(found, [e.1]);
  }

  lemma FirstOld(entries: Entries, current: string, visited: set<string>, found: seq<string>, first: seq<nat>,
                 e: (string, string))
    requires NewsOf(entries, current, visited, found, first)
    requires e.0 != current || e.1 in visited || e.1 in found
    ensures NewsOf(entries + [e], current, visited, found, first)
  {
  }

  lemma DiscoveredStays(entries: Entries, order: seq<string>, found: seq<string>, x: string, n: int)
    requires 0 <= n < |entries| && DiscoveredBefore(entries, order, x, n)
    ensures DiscoveredBefore(entries, order + found, x, n)
  {
    var m :| 0 <= m < |entries| && entries[m].1 == x && SeenBefore(entries, order, m, n);
    if Before(order, entries[m].0, entries[n].0) {
      BeforeStays(order, found, entries[m].0, entries[n].0);
    }
    assert SeenBefore(entries, order + found, m, n);
  }

  /** A known node was discovered from a node taken before `current`, and entry `n` is from a later one. */
  lemma KnownIsEarlier(entries: Entries, start: string, done: seq<string>, current: string, rest: seq<string>,
                       found: seq<string>, x: string, n: int)
    requires Discovering(entries, start, done, [current] + rest) && x in done + ([current] + rest) && x != start
    requires 0 <= n < |entries| && IsEntry(entries, n, done + ([current] + rest) + found, entries[n].1)
    requires entries[n].1 !in done + ([current] + rest) || entries[n].0 in found
    requires forall y :: y in found ==> y !in done + ([current] + rest)
    ensures DiscoveredBefore(entries, done + ([current] + rest) + found, x, n)
  {
    var order, b := done + ([current] + rest), entries[n].0;
    var e :| e in entries && e.1 == x && e.0 in done;
    var m :| 0 <= m < |entries| && entries[m] == e;
    assert entries[n] in entries;
    assert done + ([current] + rest + found) == order + found;
    assert b !in done;
    BeforeAcross(done, [current] + rest + found, e.0, b);
    assert SeenBefore(entries, order + found, m, n);
  }

  lemma FreshIsEarlier(entries: Entries, start: string, done: seq<string>, current: string, rest: seq<string>,
                       found: seq<string>, first: seq<nat>, x: string, y: string, n: int)
    requires Discovering(entries, start, done, [current] + rest) && FirstEntries(entries, current, found, first)
    requires Distinct(found) && Before(found, x, y) && y !in done + ([current] + rest)
    requires IsEntry(entries, n, done + ([current] + rest) + found, y)
    ensures DiscoveredBefore(entries, done + ([current] + rest) + found, x, n)
  {
    var order, b := done + ([current] + rest), entries[n].0;
    var i, k :| 0 <= i < k < |found| && found[i] == x && found[k] == y;
    assert entries[n] in entries && b !in done;
    if b == current {
      assert first[i] < first[k] <= n;
    } else {
      MoveOver(done, current, rest, found);
      BeforeAcross(done + [current], rest + found, current, b);
    }
    assert SeenBefore(entries, order + found, first[i], n);
  }
}
