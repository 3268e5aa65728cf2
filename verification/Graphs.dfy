/** Finite graphs given by adjacency lists over 0 .. |g|-1. */
module Graphs {

  type Graph = seq<seq<nat>>

  ghost predicate WellFormed(g: Graph) {
    forall v, w | 0 <= v < |g| && w in g[v] :: w < |g|
  }

  ghost predicate IsPath(g: Graph, p: seq<nat>) {
    && |p| > 0
    && (forall i | 0 <= i < |p| :: p[i] < |g|)
    && (forall i | 0 <= i < |p| - 1 :: p[i + 1] in g[p[i]])
  }

  ghost predicate Reaches(g: Graph, v: nat, w: nat) {
    exists p :: IsPath(g, p) && p[0] == v && p[|p| - 1] == w
  }

  ghost predicate IsCycle(g: Graph, p: seq<nat>) {
    |p| >= 2 && IsPath(g, p) && p[0] == p[|p| - 1]
  }

  /** `v` lies on a cycle. */
  ghost predicate OnCycle(g: Graph, v: nat) {
    exists p :: IsCycle(g, p) && p[0] == v
  }

  ghost predicate Cyclic(g: Graph) {
    exists p :: IsCycle(g, p)
  }

  lemma ReachesSelf(g: Graph, v: nat)
    requires v < |g|
    ensures Reaches(g, v, v)
  {
    assert IsPath(g, [v]);
  }

  lemma ReachesEdge(g: Graph, v: nat, w: nat)
    requires v < |g| && w < |g| && w in g[v]
    ensures Reaches(g, v, w)
  {
    assert IsPath(g, [v, w]);
  }

  lemma ReachesTransitive(g: Graph, x: nat, y: nat, z: nat)
    requires Reaches(g, x, y) && Reaches(g, y, z)
    ensures Reaches(g, x, z)
  {
    var p :| IsPath(g, p) && p[0] == x && p[|p| - 1] == y;
    var q :| IsPath(g, q) && q[0] == y && q[|q| - 1] == z;
    var r := p + q[1..];
    forall i | 0 <= i < |r| - 1 ensures r[i + 1] in g[r[i]] {
      if i >= |p| - 1 { assert q[i - |p| + 2] in g[q[i - |p| + 1]]; }
    }
    assert IsPath(g, r);
  }

  /** A node is on a cycle exactly when one of its successors reaches it. */
  lemma OnCycleIff(g: Graph, v: nat)
    requires WellFormed(g) && v < |g|
    ensures OnCycle(g, v) <==> exists w :: w in g[v] && Reaches(g, w, v)
  {
    if p :| IsCycle(g, p) && p[0] == v {
      var q := p[1..];
      assert IsPath(g, q);
      assert Reaches(g, p[1], v);
    }
    if w :| w in g[v] && Reaches(g, w, v) {
      var q :| IsPath(g, q) && q[0] == w && q[|q| - 1] == v;
      var p := [v] + q;
      assert IsCycle(g, p);
    }
  }
}
