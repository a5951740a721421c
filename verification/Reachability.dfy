// Walks over a finite edge set: transitive closure, by paths.
module Reachability {
  type Edges = set<(nat, nat)>

  ghost predicate Walk(edges: Edges, p: seq<nat>) {
    forall i :: 0 <= i < |p| - 1 ==> (p[i], p[i + 1]) in edges
  }

  ghost predicate WalkFromTo(edges: Edges, p: seq<nat>, a: nat, b: nat) {
    |p| >= 2 && Walk(edges, p) && p[0] == a && p[|p| - 1] == b
  }

  // One or more edges lead from a to b.
  ghost predicate Reaches(edges: Edges, a: nat, b: nat) {
    exists p :: WalkFromTo(edges, p, a, b)
  }

  lemma ReachesEdge(edges: Edges, a: nat, b: nat)
    requires (a, b) in edges
    ensures Reaches(edges, a, b)
  {
    assert WalkFromTo(edges, [a, b], a, b);
  }

  lemma ReachesTransitively(edges: Edges, a: nat, b: nat, c: nat)
    requires Reaches(edges, a, b) && Reaches(edges, b, c)
    ensures Reaches(edges, a, c)
  {
    var p :| WalkFromTo(edges, p, a, b);
    var q :| WalkFromTo(edges, q, b, c);
    var r := p + q[1..];
    forall i | 0 <= i < |r| - 1 ensures (r[i], r[i + 1]) in edges {
      if i >= |p| - 1 {
        assert r[i] == q[i - (|p| - 1)] && r[i + 1] == q[i + 1 - (|p| - 1)];
      }
    }
    assert WalkFromTo(edges, r, a, c);
  }

  // The first edge of a walk.
  lemma ReachesByFirstEdge(edges: Edges, a: nat, c: nat)
    requires Reaches(edges, a, c)
    ensures exists b :: (a, b) in edges && (b == c || Reaches(edges, b, c))
  {
    var p :| WalkFromTo(edges, p, a, c);
    var b := p[1];
    assert (p[0], p[0 + 1]) in edges;
    if |p| > 2 {
      WalkTail(edges, p);
      assert WalkFromTo(edges, p[1..], b, c);
    }
  }

  lemma WalkTail(edges: Edges, p: seq<nat>)
    requires |p| >= 1 && Walk(edges, p)
    ensures Walk(edges, p[1..])
  {
    forall i | 0 <= i < |p[1..]| - 1 ensures (p[1..][i], p[1..][i + 1]) in edges {
      assert (p[i + 1], p[i + 1 + 1]) in edges;
    }
  }

  // Within `nodes`, a set holds everything its members lead to directly.
  ghost predicate ClosedForward(edges: Edges, nodes: set<nat>, s: set<nat>) {
    forall e <- edges :: e.0 in s && e.1 in nodes ==> e.1 in s
  }

  // A set holds everything that leads directly to it or to the target.
  ghost predicate ClosedBackward(edges: Edges, s: set<nat>, target: nat) {
    forall e <- edges :: e.1 in s || e.1 == target ==> e.0 in s
  }

  lemma {:induction false} ForwardWalkStays(edges: Edges, nodes: set<nat>, s: set<nat>, p: seq<nat>)
    requires ClosedForward(edges, nodes, s) && forall e <- edges :: e.0 in nodes
    requires |p| >= 1 && Walk(edges, p) && p[0] in s && p[|p| - 1] in nodes
    ensures p[|p| - 1] in s
  {
    if |p| > 1 {
      assert (p[0], p[0 + 1]) in edges;
      if |p| > 2 {
        assert (p[1], p[1 + 1]) in edges;
      }
      WalkTail(edges, p);
      ForwardWalkStays(edges, nodes, s, p[1..]);
    }
  }

  lemma ForwardClosedHoldsReachable(edges: Edges, nodes: set<nat>, s: set<nat>, a: nat, b: nat)
    requires ClosedForward(edges, nodes, s) && forall e <- edges :: e.0 in nodes
    requires a in s && b in nodes && Reaches(edges, a, b)
    ensures b in s
  {
    var p :| WalkFromTo(edges, p, a, b);
    ForwardWalkStays(edges, nodes, s, p);
  }

  lemma {:induction false} BackwardWalkStays(edges: Edges, s: set<nat>, target: nat, p: seq<nat>)
    requires ClosedBackward(edges, s, target)
    requires |p| >= 2 && Walk(edges, p) && p[|p| - 1] == target
    ensures p[0] in s
  {
    assert (p[0], p[0 + 1]) in edges;
    if |p| > 2 {
      WalkTail(edges, p);
      BackwardWalkStays(edges, s, target, p[1..]);
    }
  }

  lemma BackwardClosedHoldsReaching(edges: Edges, s: set<nat>, a: nat, target: nat)
    requires ClosedBackward(edges, s, target) && Reaches(edges, a, target)
    ensures a in s
  {
    var p :| WalkFromTo(edges, p, a, target);
    BackwardWalkStays(edges, s, target, p);
  }

  // Symmetric edges reach back.
  ghost predicate Symmetric(edges: Edges) {
    forall e <- edges :: (e.1, e.0) in edges
  }

  lemma {:induction false} SymmetricReaches(edges: Edges, p: seq<nat>)
    requires Symmetric(edges) && |p| >= 2 && Walk(edges, p)
    ensures Reaches(edges, p[|p| - 1], p[0])
  {
    assert (p[0], p[0 + 1]) in edges;
    assert (p[1], p[0]) in edges by {
      var e := (p[0], p[1]);
      assert e in edges;
    }
    ReachesEdge(edges, p[1], p[0]);
    if |p| > 2 {
      WalkTail(edges, p);
      SymmetricReaches(edges, p[1..]);
      ReachesTransitively(edges, p[|p| - 1], p[1], p[0]);
    }
  }

  lemma ReachesBack(edges: Edges, a: nat, b: nat)
    requires Symmetric(edges) && Reaches(edges, a, b)
    ensures Reaches(edges, b, a)
  {
    var p :| WalkFromTo(edges, p, a, b);
    SymmetricReaches(edges, p);
  }
}
