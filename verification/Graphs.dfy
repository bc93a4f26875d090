/** Walks, cycles and longest chains in a finite directed graph given as a set of edges. */
module Graphs {
  type Edges = set<(string, string)>

  /** `p` follows edges of `g`; one node alone is a walk. */
  ghost predicate IsWalk(g: Edges, p: seq<string>) {
    |p| > 0 && forall i, j {:trigger p[i], p[j]} :: 0 <= i && j == i + 1 < |p| ==> (p[i], p[j]) in g
  }

  ghost predicate WalkFromTo(g: Edges, p: seq<string>, a: string, b: string) {
    IsWalk(g, p) && p[0] == a && p[|p| - 1] == b
  }

  ghost predicate Reaches(g: Edges, a: string, b: string) {
    exists p :: WalkFromTo(g, p, a, b)
  }

  ghost predicate IsCycle(g: Edges, p: seq<string>) {
    IsWalk(g, p) && |p| > 1 && p[0] == p[|p| - 1]
  }

  ghost predicate HasCycle(g: Edges) {
    exists p :: IsCycle(g, p)
  }

  /** The longest chain ending in `x` has exactly `k` edges. */
  ghost predicate LongestChainTo(g: Edges, x: string, k: nat) {
    (exists p :: IsWalk(g, p) && p[|p| - 1] == x && |p| == k + 1) &&
    (forall p :: IsWalk(g, p) && p[|p| - 1] == x ==> |p| <= k + 1)
  }

  lemma LongestChainUnique(g: Edges, x: string, k: nat, l: nat)
    requires LongestChainTo(g, x, k) && LongestChainTo(g, x, l)
    ensures k == l
  {
  }

  predicate Distinct<T(==)>(s: seq<T>) {
    forall i, j :: 0 <= i < j < |s| ==> s[i] != s[j]
  }

  function Elements<T>(s: seq<T>): set<T> {
    set x | x in s
  }

  lemma DistinctAppend<T>(a: seq<T>, b: seq<T>)
    requires Distinct(a) && Distinct(b) && forall x :: x in b ==> x !in a
    ensures Distinct(a + b)
  {
    forall i, j | 0 <= i < j < |a + b| ensures (a + b)[i] != (a + b)[j] {
      if i < |a| <= j {
        assert (a + b)[j] == b[j - |a|] && b[j - |a|] in b;
      }
    }
  }

  lemma DistinctParts<T>(a: seq<T>, b: seq<T>)
    requires Distinct(a + b)
    ensures Distinct(a) && Distinct(b) && Elements(a) !! Elements(b)
  {
    forall i, j | 0 <= i < j < |a| ensures a[i] != a[j] {
      assert (a + b)[i] != (a + b)[j];
    }
    forall i, j | 0 <= i < j < |b| ensures b[i] != b[j] {
      assert (a + b)[|a| + i] != (a + b)[|a| + j];
    }
    forall i, j | 0 <= i < |a| && 0 <= j < |b| ensures a[i] != b[j] {
      assert (a + b)[i] != (a + b)[|a| + j];
    }
  }

  lemma {:induction false} DistinctSize<T>(s: seq<T>)
    requires Distinct(s)
    ensures |Elements(s)| == |s|
  {
    if s == [] {
    } else {
      var last := |s| - 1;
      DistinctSize(s[..last]);
      assert Elements(s) == Elements(s[..last]) + {s[last]};
    }
  }

  lemma WalkConcat(g: Edges, p: seq<string>, q: seq<string>)
    requires IsWalk(g, p) && IsWalk(g, q) && p[|p| - 1] == q[0]
    ensures WalkFromTo(g, p + q[1..], p[0], q[|q| - 1])
  {
    var r := p + q[1..];
    forall i | 0 < i < |r| ensures (r[i - 1], r[i]) in g {
      if i >= |p| {
        assert r[i] == q[i - |p| + 1];
      }
    }
  }

  lemma WalkExtend(g: Edges, p: seq<string>, x: string)
    requires IsWalk(g, p) && (p[|p| - 1], x) in g
    ensures WalkFromTo(g, p + [x], p[0], x)
  {
  }

  lemma WalkPrepend(g: Edges, x: string, p: seq<string>)
    requires IsWalk(g, p) && (x, p[0]) in g
    ensures WalkFromTo(g, [x] + p, x, p[|p| - 1])
  {
    var r := [x] + p;
    forall i | 0 < i < |r| ensures (r[i - 1], r[i]) in g {
      assert r[i] == p[i - 1];
      if i > 1 {
        assert r[i - 1] == p[i - 2];
      }
    }
  }

  lemma ReachesTransitive(g: Edges, a: string, b: string, c: string)
    requires Reaches(g, a, b) && Reaches(g, b, c)
    ensures Reaches(g, a, c)
  {
    var p :| WalkFromTo(g, p, a, b);
    var q :| WalkFromTo(g, q, b, c);
    WalkConcat(g, p, q);
  }

  lemma ReachesStep(g: Edges, a: string, b: string, c: string)
    requires Reaches(g, a, b) && (b, c) in g
    ensures Reaches(g, a, c)
  {
    var p :| WalkFromTo(g, p, a, b);
    WalkExtend(g, p, c);
  }

  lemma ReachesSelf(g: Edges, a: string)
    ensures Reaches(g, a, a)
  {
    assert WalkFromTo(g, [a], a, a);
  }

  /** Whatever is closed under outgoing edges holds the end of every walk that starts in it. */
  lemma {:induction false} ClosedUnderEdges(g: Edges, s: set<string>, p: seq<string>)
    requires IsWalk(g, p) && p[0] in s
    requires forall e :: e in g && e.0 in s ==> e.1 in s
    ensures forall i :: 0 <= i < |p| ==> p[i] in s
  {
    if |p| <= 1 {
    } else {
      var q := p[..|p| - 1];
      ClosedUnderEdges(g, s, q);
      assert q[|q| - 1] == p[|p| - 2];
      assert (p[|p| - 2], p[|p| - 1]) in g;
    }
  }

  /** A sequence longer than the set it draws from repeats an element. */
  lemma Pigeonhole(p: seq<string>, s: set<string>)
    requires forall i :: 0 <= i < |p| ==> p[i] in s
    requires |p| > |s|
    ensures !Distinct(p)
  {
    if Distinct(p) {
      DistinctSize(p);
      SubsetSize(Elements(p), s);
      assert false;
    }
  }

  lemma {:induction false} SubsetSize<T>(a: set<T>, b: set<T>)
    requires a <= b
    ensures |a| <= |b|
    ensures |a| == |b| ==> a == b
  {
    if a == {} {
    } else {
      var x :| x in a;
      SubsetSize(a - {x}, b - {x});
    }
  }

  /** A walk that visits a node twice contains a cycle. */
  lemma RepeatedNodeGivesCycle(g: Edges, p: seq<string>) returns (lo: nat, hi: nat)
    requires IsWalk(g, p) && !Distinct(p)
    ensures lo < hi < |p| && IsCycle(g, p[lo..hi + 1])
  {
    lo, hi :| 0 <= lo < hi < |p| && p[lo] == p[hi];
    SliceIsWalk(g, p, lo, hi + 1);
  }

  lemma SliceIsWalk(g: Edges, p: seq<string>, lo: nat, hi: nat)
    requires IsWalk(g, p) && lo < hi <= |p|
    ensures WalkFromTo(g, p[lo..hi], p[lo], p[hi - 1])
  {
    var q := p[lo..hi];
    forall i | 0 < i < |q| ensures (q[i - 1], q[i]) in g {
      assert q[i] == p[lo + i] && q[i - 1] == p[lo + i - 1];
    }
  }

  ghost predicate HasPredecessorIn(g: Edges, s: set<string>, x: string) {
    exists y :: y in s && (y, x) in g
  }

  /** Walking backwards for as long as wanted inside a set where every node has a predecessor. */
  lemma {:induction false} BackwardWalk(g: Edges, s: set<string>, n: nat) returns (p: seq<string>)
    requires s != {}
    requires forall x :: x in s ==> HasPredecessorIn(g, s, x)
    ensures IsWalk(g, p) && |p| == n + 1 && forall i :: 0 <= i < |p| ==> p[i] in s
  {
    if n == 0 {
      var x :| x in s;
      p := [x];
    } else {
      var q := BackwardWalk(g, s, n - 1);
      assert HasPredecessorIn(g, s, q[0]);
      var y :| y in s && (y, q[0]) in g;
      WalkPrepend(g, y, q);
      p := [y] + q;
      assert forall i :: 0 < i < |p| ==> p[i] == q[i - 1];
    }
  }

  /** The leftover argument: a non-empty set in which every node keeps a predecessor holds a cycle. */
  lemma LeftoverHasCycle(g: Edges, s: set<string>)
    requires s != {}
    requires forall x :: x in s ==> HasPredecessorIn(g, s, x)
    ensures HasCycle(g)
  {
    var p := BackwardWalk(g, s, |s|);
    Pigeonhole(p, s);
    var lo, hi := RepeatedNodeGivesCycle(g, p);
  }

  /** A level that strictly grows along every edge bounds the length of each walk by the level of its end. */
  lemma {:induction false} LevelBoundsWalk(g: Edges, level: map<string, nat>, p: seq<string>)
    requires IsWalk(g, p)
    requires forall e :: e in g ==> e.0 in level && e.1 in level && level[e.0] < level[e.1]
    requires p[|p| - 1] in level
    ensures |p| <= level[p[|p| - 1]] + 1
    ensures p[0] in level && level[p[0]] + |p| - 1 <= level[p[|p| - 1]]
  {
    if |p| <= 1 {
    } else {
      var q := p[..|p| - 1];
      assert (p[|p| - 2], p[|p| - 1]) in g;
      assert q[|q| - 1] == p[|p| - 2];
      LevelBoundsWalk(g, level, q);
    }
  }

  lemma LevelForbidsCycle(g: Edges, level: map<string, nat>)
    requires forall e :: e in g ==> e.0 in level && e.1 in level && level[e.0] < level[e.1]
    ensures !HasCycle(g)
  {
    if HasCycle(g) {
      var p :| IsCycle(g, p);
      assert (p[|p| - 2], p[|p| - 1]) in g;
      LevelBoundsWalk(g, level, p);
      assert false;
    }
  }
}
