/**
 The depth-first walk behind the depth of a delegation graph. One visited set is handed from child to child, so a
 node reached twice counts once. What the walk visits and how deep it gets is said here for any edges, cycles
 included.
 */
module DepthWalk {
  import opened Graphs
  import opened DependencyCounts

  /** The walk from one node: its depth below here and the visited set it leaves behind. */
  function DepthFrom(entries: Entries, universe: set<string>, node: string,
                     visited: set<string>): (r: (nat, set<string>))
    requires node in universe && forall e :: e in entries ==> e.1 in universe
    ensures visited <= r.1
    decreases universe - visited, 0
  {
    if node in visited then (0, visited) else
      TargetsAreEntries(entries, node);
      var (deepest, after) := DepthOfAll(entries, universe, Targets(entries, node), visited + {node});
      (1 + deepest, after)
  }

  /** The deepest of several nodes walked one after the other. */
  function DepthOfAll(entries: Entries, universe: set<string>, nodes: seq<string>,
                      visited: set<string>): (r: (nat, set<string>))
    requires (forall n :: n in nodes ==> n in universe) && forall e :: e in entries ==> e.1 in universe
    ensures visited <= r.1
    decreases universe - visited, |nodes| + 1
  {
    if nodes == [] then (0, visited) else
      var (first, after) := DepthFrom(entries, universe, nodes[0], visited);
      var (rest, last) := DepthOfAll(entries, universe, nodes[1..], after);
      (if first > rest then first else rest, last)
  }

  // ----- Reaching past a set of nodes -----

  /** The edges that touch no node of `path`. */
  function Outside(g: Edges, path: set<string>): Edges {
    set e | e in g && e.0 !in path && e.1 !in path
  }

  /** Some walk from `a` to `b` meets no node of `path`. */
  ghost predicate ReachesPast(g: Edges, path: set<string>, a: string, b: string) {
    a !in path && Reaches(Outside(g, path), a, b)
  }

  lemma ReachesPastNone(g: Edges, a: string, b: string)
    ensures ReachesPast(g, {}, a, b) <==> Reaches(g, a, b)
  {
    assert Outside(g, {}) == g;
  }

  /** Some one of the nodes reaches `x` past `path`. */
  ghost predicate AnyReachesPast(g: Edges, path: set<string>, nodes: seq<string>, x: string) {
    exists c :: c in nodes && ReachesPast(g, path, c, x)
  }

  lemma OutsideShrinks(g: Edges, path: set<string>, more: set<string>, a: string, b: string)
    requires path <= more && ReachesPast(g, more, a, b)
    ensures ReachesPast(g, path, a, b)
  {
    var p :| WalkFromTo(Outside(g, more), p, a, b);
    assert Outside(g, more) <= Outside(g, path);
    assert WalkFromTo(Outside(g, path), p, a, b);
  }

  /** A step to a child, and past the node from there on. */
  lemma StepPast(g: Edges, path: set<string>, node: string, c: string, x: string)
    requires node !in path && (node, c) in g && ReachesPast(g, path + {node}, c, x)
    ensures ReachesPast(g, path, node, x)
  {
    OutsideShrinks(g, path, path + {node}, c, x);
    var p :| WalkFromTo(Outside(g, path), p, c, x);
    WalkPrepend(Outside(g, path), node, p);
  }

  /** Visited nodes were walked to their end, except those on the path to the current node. */
  ghost predicate Finished(g: Edges, path: set<string>, visited: set<string>) {
    path <= visited && forall e :: e in g && e.0 in visited && e.0 !in path ==> e.1 in visited
  }

  /** From a visited node nothing new is reached past the path. */
  lemma NothingNew(g: Edges, path: set<string>, visited: set<string>, a: string, x: string)
    requires Finished(g, path, visited) && a in visited && ReachesPast(g, path, a, x)
    ensures x in visited
  {
    var p :| WalkFromTo(Outside(g, path), p, a, x);
    ClosedUnderEdges(Outside(g, path), visited, p);
  }

  // ----- What the walk visits -----

  /** The walk visits exactly what its node reaches past the path; the rest was visited before. */
  lemma WalkVisits(entries: Entries, universe: set<string>, path: set<string>, node: string, visited: set<string>)
    requires node in universe && forall e :: e in entries ==> e.1 in universe
    requires Finished(EdgesOf(entries), path, visited)
    ensures var g, after := EdgesOf(entries), DepthFrom(entries, universe, node, visited).1;
            node in after && Finished(g, path, after) &&
            forall x :: x in after <==> x in visited || ReachesPast(g, path, node, x)
    decreases universe - visited, 0
  {
    var g, after := EdgesOf(entries), DepthFrom(entries, universe, node, visited).1;
    if node in visited {
    } else {
      var kids, longer := Targets(entries, node), path + {node};
      TargetsAreEntries(entries, node);
      WalksVisit(entries, universe, longer, kids, visited + {node});
      forall x | x in after && x !in visited ensures ReachesPast(g, path, node, x) {
        if x == node {
          ReachesSelf(Outside(g, path), node);
        } else {
          var c :| c in kids && ReachesPast(g, longer, c, x);
          StepPast(g, path, node, c, x);
        }
      }
      forall e | e in g && e.0 == node ensures e.1 in after {
        assert (node, e.1) in entries && e.1 in kids;
      }
    }
    forall x | ReachesPast(g, path, node, x) ensures x in after {
      NothingNew(g, path, after, node, x);
    }
  }

  lemma {:induction false} WalksVisit(entries: Entries, universe: set<string>, path: set<string>, nodes: seq<string>,
                                      visited: set<string>)
    requires (forall n :: n in nodes ==> n in universe) && forall e :: e in entries ==> e.1 in universe
    requires Finished(EdgesOf(entries), path, visited)
    ensures var g, after := EdgesOf(entries), DepthOfAll(entries, universe, nodes, visited).1;
            Elements(nodes) <= after && Finished(g, path, after) &&
            forall x :: x in after <==> x in visited || AnyReachesPast(g, path, nodes, x)
    decreases universe - visited, |nodes| + 1
  {
    if nodes == [] {
    } else {
      var g, c, rest := EdgesOf(entries), nodes[0], nodes[1..];
      WalkVisits(entries, universe, path, c, visited);
      WalksVisit(entries, universe, path, rest, DepthFrom(entries, universe, c, visited).1);
      assert nodes == [c] + rest;
      forall x
        ensures AnyReachesPast(g, path, nodes, x) <==> ReachesPast(g, path, c, x) || AnyReachesPast(g, path, rest, x)
      {
        if k :| k in nodes && ReachesPast(g, path, k, x) && k != c {
          assert k in rest;
        }
      }
    }
  }

  /** From a node with nothing visited yet, the walk visits exactly what can be reached, on any edges. */
  lemma WalkVisitsReachable(entries: Entries, universe: set<string>, node: string)
    requires node in universe && forall e :: e in entries ==> e.1 in universe
    ensures forall x :: x in DepthFrom(entries, universe, node, {}).1 <==> Reaches(EdgesOf(entries), node, x)
  {
    WalkVisits(entries, universe, {}, node, {});
    forall x ensures ReachesPast(EdgesOf(entries), {}, node, x) <==> Reaches(EdgesOf(entries), node, x) {
      ReachesPastNone(EdgesOf(entries), node, x);
    }
  }

  // ----- The depth is the longest first chain -----

  /** A walk of distinct nodes. */
  ghost predicate IsChain(g: Edges, p: seq<string>) {
    IsWalk(g, p) && Distinct(p)
  }

  /** `b` is among the nodes, and nothing listed before it reaches `x` past `path`. */
  ghost predicate FirstToReach(g: Edges, path: set<string>, nodes: seq<string>, b: string, x: string) {
    exists j :: 0 <= j < |nodes| && nodes[j] == b && forall k :: 0 <= k < j ==> !ReachesPast(g, path, nodes[k], x)
  }

  /**
   A chain past `path`, each step of which goes to the first listed child that reaches the end of the chain past
   `path` and the nodes of the chain so far.
   */
  ghost predicate FirstChainPast(entries: Entries, path: set<string>, p: seq<string>)
    decreases |p|
  {
    p != [] && p[0] !in path &&
    (|p| > 1 ==>
      FirstToReach(EdgesOf(entries), path + {p[0]}, Targets(entries, p[0]), p[1], p[|p| - 1]) &&
      FirstChainPast(entries, path + {p[0]}, p[1..]))
  }

  ghost predicate IsFirstChain(entries: Entries, p: seq<string>) {
    FirstChainPast(entries, {}, p)
  }

  /** A first chain is a chain of distinct nodes past `path`. */
  lemma {:induction false} FirstChainIsChain(entries: Entries, path: set<string>, p: seq<string>)
    requires FirstChainPast(entries, path, p)
    ensures IsChain(EdgesOf(entries), p) && Elements(p) !! path
    ensures ReachesPast(EdgesOf(entries), path, p[0], p[|p| - 1])
    decreases |p|
  {
    var g := EdgesOf(entries);
    if |p| == 1 {
      ReachesSelf(Outside(g, path), p[0]);
    } else {
      var q, longer := p[1..], path + {p[0]};
      FirstChainIsChain(entries, longer, q);
      TargetsAreEntries(entries, p[0]);
      assert (p[0], q[0]) in g;
      WalkPrepend(g, p[0], q);
      assert p == [p[0]] + q;
      assert p[0] !in Elements(q);
      DistinctAppend([p[0]], q);
      StepPast(g, path, p[0], q[0], q[|q| - 1]);
    }
  }

  /**
   Step by step: a first chain is a chain of distinct nodes in which every node is the first listed child of the
   one before that reaches the end without meeting the nodes before it.
   */
  lemma FirstChainStepwise(entries: Entries, p: seq<string>)
    requires IsChain(EdgesOf(entries), p)
    ensures IsFirstChain(entries, p) <==> StepsAreFirst(entries, {}, p)
  {
    StepwisePast(entries, {}, p);
  }

  ghost predicate StepIsFirst(entries: Entries, path: set<string>, p: seq<string>, i: nat)
    requires i + 1 < |p|
  {
    FirstToReach(EdgesOf(entries), path + Elements(p[..i + 1]), Targets(entries, p[i]), p[i + 1], p[|p| - 1])
  }

  ghost predicate StepsAreFirst(entries: Entries, path: set<string>, p: seq<string>) {
    forall i :: 0 <= i < |p| - 1 ==> StepIsFirst(entries, path, p, i)
  }

  lemma StepOfTail(entries: Entries, path: set<string>, p: seq<string>, i: nat)
    requires i + 2 < |p|
    ensures StepIsFirst(entries, path, p, i + 1) <==> StepIsFirst(entries, path + {p[0]}, p[1..], i)
  {
    var q := p[1..];
    assert p[..i + 2] == [p[0]] + q[..i + 1];
    assert path + Elements(p[..i + 2]) == path + {p[0]} + Elements(q[..i + 1]);
  }

  lemma StepsOfTail(entries: Entries, path: set<string>, p: seq<string>)
    requires |p| > 1
    ensures StepsAreFirst(entries, path, p) <==>
            StepIsFirst(entries, path, p, 0) && StepsAreFirst(entries, path + {p[0]}, p[1..])
  {
    forall i: nat | i + 2 < |p|
      ensures StepIsFirst(entries, path, p, i + 1) <==> StepIsFirst(entries, path + {p[0]}, p[1..], i)
    {
      StepOfTail(entries, path, p, i);
    }
    if StepIsFirst(entries, path, p, 0) && StepsAreFirst(entries, path + {p[0]}, p[1..]) {
      forall i | 0 <= i < |p| - 1 ensures StepIsFirst(entries, path, p, i) {
        assert i > 0 ==> StepIsFirst(entries, path + {p[0]}, p[1..], i - 1);
      }
    }
  }

  lemma {:induction false} StepwisePast(entries: Entries, path: set<string>, p: seq<string>)
    requires IsChain(EdgesOf(entries), p) && Elements(p) !! path
    ensures FirstChainPast(entries, path, p) <==> StepsAreFirst(entries, path, p)
    decreases |p|
  {
    assert p[0] in Elements(p);
    if |p| == 1 {
    } else {
      var q := p[1..];
      SliceIsWalk(EdgesOf(entries), p, 1, |p|);
      assert p[1..|p|] == q && p == [p[0]] + q;
      DistinctParts([p[0]], q);
      assert p[0] in Elements([p[0]]) && Elements(q) <= Elements(p);
      StepwisePast(entries, path + {p[0]}, q);
      StepsOfTail(entries, path, p);
      assert p[..1] == [p[0]] && path + Elements(p[..1]) == path + {p[0]};
    }
  }

  /** No first chain that ends outside the visited set is longer than the depth. */
  lemma DepthBoundsFirstChains(entries: Entries, universe: set<string>, path: set<string>, node: string,
                               visited: set<string>, p: seq<string>)
    requires node in universe && forall e :: e in entries ==> e.1 in universe
    requires Finished(EdgesOf(entries), path, visited)
    requires FirstChainPast(entries, path, p) && p[0] == node && p[|p| - 1] !in visited
    ensures |p| <= DepthFrom(entries, universe, node, visited).0
    decreases universe - visited, 0
  {
    var g, longer := EdgesOf(entries), path + {node};
    FirstChainIsChain(entries, path, p);
    if node in visited {
      NothingNew(g, path, visited, node, p[|p| - 1]);
      assert false;
    }
    if |p| > 1 {
      var q := p[1..];
      FirstChainIsChain(entries, longer, q);
      assert q[|q| - 1] in Elements(q);
      TargetsAreEntries(entries, node);
      BoundsFirstChains(entries, universe, longer, Targets(entries, node), visited + {node}, q);
    }
  }

  lemma {:induction false} BoundsFirstChains(entries: Entries, universe: set<string>, path: set<string>,
                                             nodes: seq<string>, visited: set<string>, p: seq<string>)
    requires (forall n :: n in nodes ==> n in universe) && forall e :: e in entries ==> e.1 in universe
    requires Finished(EdgesOf(entries), path, visited)
    requires FirstChainPast(entries, path, p) && p[|p| - 1] !in visited
    requires FirstToReach(EdgesOf(entries), path, nodes, p[0], p[|p| - 1])
    ensures |p| <= DepthOfAll(entries, universe, nodes, visited).0
    decreases universe - visited, |nodes| + 1
  {
    var g, x := EdgesOf(entries), p[|p| - 1];
    var j :| 0 <= j < |nodes| && nodes[j] == p[0] && forall k :: 0 <= k < j ==> !ReachesPast(g, path, nodes[k], x);
    var c, rest := nodes[0], nodes[1..];
    if j == 0 {
      DepthBoundsFirstChains(entries, universe, path, c, visited, p);
    } else {
      WalkVisits(entries, universe, path, c, visited);
      assert rest[j - 1] == p[0] && forall k :: 0 <= k < j - 1 ==> rest[k] == nodes[k + 1];
      BoundsFirstChains(entries, universe, path, rest, DepthFrom(entries, universe, c, visited).1, p);
    }
  }

  /** The depth, when it is not zero, is the length of a first chain that ends outside the visited set. */
  lemma DepthHasFirstChain(entries: Entries, universe: set<string>, path: set<string>, node: string,
                           visited: set<string>)
    returns (p: seq<string>)
    requires node in universe && forall e :: e in entries ==> e.1 in universe
    requires Finished(EdgesOf(entries), path, visited)
    ensures var d := DepthFrom(entries, universe, node, visited).0;
            d > 0 ==> |p| == d && FirstChainPast(entries, path, p) && p[0] == node && p[|p| - 1] !in visited
    decreases universe - visited, 0
  {
    p := [node];
    if node !in visited {
      var kids, seen := Targets(entries, node), visited + {node};
      TargetsAreEntries(entries, node);
      var q := HasFirstChain(entries, universe, path + {node}, kids, seen);
      if DepthOfAll(entries, universe, kids, seen).0 > 0 {
        p := [node] + q;
        assert p[1..] == q;
      }
    }
  }

  lemma {:induction false} HasFirstChain(entries: Entries, universe: set<string>, path: set<string>,
                                         nodes: seq<string>, visited: set<string>)
    returns (p: seq<string>)
    requires (forall n :: n in nodes ==> n in universe) && forall e :: e in entries ==> e.1 in universe
    requires Finished(EdgesOf(entries), path, visited)
    ensures var d := DepthOfAll(entries, universe, nodes, visited).0;
            d > 0 ==> |p| == d && FirstChainPast(entries, path, p) && p[|p| - 1] !in visited &&
                      FirstToReach(EdgesOf(entries), path, nodes, p[0], p[|p| - 1])
    decreases universe - visited, |nodes| + 1
  {
    if nodes == [] {
      p := [];
    } else {
      var g, c, rest := EdgesOf(entries), nodes[0], nodes[1..];
      var (first, after) := DepthFrom(entries, universe, c, visited);
      WalkVisits(entries, universe, path, c, visited);
      p := DepthHasFirstChain(entries, universe, path, c, visited);
      var q := HasFirstChain(entries, universe, path, rest, after);
      if first > DepthOfAll(entries, universe, rest, after).0 {
        assert nodes[0] == p[0];
      } else {
        p := q;
        if DepthOfAll(entries, universe, rest, after).0 > 0 {
          FirstToReachLater(g, path, c, rest, p[0], p[|p| - 1]);
          assert nodes == [c] + rest;
        }
      }
    }
  }

  lemma FirstToReachLater(g: Edges, path: set<string>, c: string, rest: seq<string>, b: string, x: string)
    requires FirstToReach(g, path, rest, b, x) && !ReachesPast(g, path, c, x)
    ensures FirstToReach(g, path, [c] + rest, b, x)
  {
    var j :| 0 <= j < |rest| && rest[j] == b && forall k :: 0 <= k < j ==> !ReachesPast(g, path, rest[k], x);
    var nodes := [c] + rest;
    assert nodes[j + 1] == b && forall k :: 0 < k < j + 1 ==> nodes[k] == rest[k - 1];
  }
}
