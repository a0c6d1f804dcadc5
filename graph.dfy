/** Directed graphs as values.  Vertices are the ID numbers `0 .. nVertices-1`; an edge's ID number is its index in
 *  `edges`.  The out-edges of a vertex are the edges whose source it is, visited in edge-ID order, and the in-edges
 *  those whose target it is. */
module Graphs {

  datatype Edge = Edge(source: nat, target: nat)

  datatype Graph = Graph(nVertices: nat, edges: seq<Edge>)

  /** Every edge joins two vertices of the graph. */
  predicate WellFormed(g: Graph) {
    forall e :: 0 <= e < |g.edges| ==> g.edges[e].source < g.nVertices && g.edges[e].target < g.nVertices
  }

  /** Edge `e` connects `u` and `w`, in either direction. */
  predicate Joins(g: Graph, e: nat, u: nat, w: nat)
    requires e < |g.edges|
  {
    (g.edges[e].source == u && g.edges[e].target == w) || (g.edges[e].source == w && g.edges[e].target == u)
  }

  /** `u` and `w` are adjacent when edge direction is ignored. */
  ghost predicate Linked(g: Graph, u: nat, w: nat) {
    exists e :: 0 <= e < |g.edges| && Joins(g, e, u, w)
  }

  /** A walk is a non-empty sequence of vertices, each adjacent to the next, edge directions ignored. */
  ghost predicate IsWalk(g: Graph, p: seq<nat>) {
    && |p| > 0
    && (forall i :: 0 <= i < |p| ==> p[i] < g.nVertices)
    && (forall i :: 0 <= i < |p| - 1 ==> Linked(g, p[i], p[i + 1]))
  }

  /** `w` can be reached from `u` by a walk: the two are in the same weakly connected component. */
  ghost predicate Reachable(g: Graph, u: nat, w: nat) {
    exists p :: IsWalk(g, p) && p[0] == u && p[|p| - 1] == w
  }

  lemma ReachableRefl(g: Graph, u: nat)
    requires u < g.nVertices
    ensures Reachable(g, u, u)
  {
    assert IsWalk(g, [u]);
  }

  lemma ReachableStep(g: Graph, u: nat, v: nat, w: nat)
    requires Reachable(g, u, v) && Linked(g, v, w) && w < g.nVertices
    ensures Reachable(g, u, w)
  {
    var p :| IsWalk(g, p) && p[0] == u && p[|p| - 1] == v;
    var q := p + [w];
    assert forall i :: 0 <= i < |p| ==> q[i] == p[i];
    assert IsWalk(g, q);
  }

  /** The last vertex of a walk reaches its first. */
  lemma {:induction false} WalkReversed(g: Graph, p: seq<nat>)
    requires IsWalk(g, p)
    ensures Reachable(g, p[|p| - 1], p[0])
  {
    if |p| == 1 {
      ReachableRefl(g, p[0]);
    } else {
      var q := p[1..];
      assert IsWalk(g, q) by {
        assert forall i :: 0 <= i < |q| ==> q[i] == p[i + 1];
      }
      WalkReversed(g, q);
      assert Linked(g, p[0], p[1]);
      var e :| 0 <= e < |g.edges| && Joins(g, e, p[0], p[1]);
      assert Joins(g, e, p[1], p[0]);
      ReachableStep(g, p[|p| - 1], p[1], p[0]);
    }
  }

  lemma ReachableSymmetric(g: Graph, u: nat, w: nat)
    requires Reachable(g, u, w)
    ensures Reachable(g, w, u)
  {
    var p :| IsWalk(g, p) && p[0] == u && p[|p| - 1] == w;
    WalkReversed(g, p);
  }

  /** Whatever reaches the start of a walk reaches its end. */
  lemma {:induction false} WalkExtends(g: Graph, u: nat, q: seq<nat>)
    requires IsWalk(g, q) && Reachable(g, u, q[0])
    ensures Reachable(g, u, q[|q| - 1])
  {
    if |q| > 1 {
      var r := q[..|q| - 1];
      assert IsWalk(g, r) by {
        assert forall i :: 0 <= i < |r| ==> r[i] == q[i];
      }
      WalkExtends(g, u, r);
      ReachableStep(g, u, q[|q| - 2], q[|q| - 1]);
    }
  }

  lemma ReachableTrans(g: Graph, u: nat, v: nat, w: nat)
    requires Reachable(g, u, v) && Reachable(g, v, w)
    ensures Reachable(g, u, w)
  {
    var q :| IsWalk(g, q) && q[0] == v && q[|q| - 1] == w;
    WalkExtends(g, u, q);
  }

  /** A labelling that gives both ends of every edge the same label is constant along every walk. */
  lemma {:induction false} WalkKeepsLabel<T>(g: Graph, lab: seq<T>, p: seq<nat>)
    requires |lab| == g.nVertices && IsWalk(g, p)
    requires forall e :: 0 <= e < |g.edges| && g.edges[e].source < |lab| && g.edges[e].target < |lab| ==>
               lab[g.edges[e].source] == lab[g.edges[e].target]
    ensures lab[p[0]] == lab[p[|p| - 1]]
  {
    if |p| > 1 {
      var r := p[..|p| - 1];
      assert IsWalk(g, r) by {
        assert forall i :: 0 <= i < |r| ==> r[i] == p[i];
      }
      WalkKeepsLabel(g, lab, r);
      var e :| 0 <= e < |g.edges| && Joins(g, e, p[|p| - 2], p[|p| - 1]);
    }
  }

  /** Vertices in the same weakly connected component carry the same label under such a labelling. */
  lemma ReachableKeepsLabel<T>(g: Graph, lab: seq<T>, u: nat, w: nat)
    requires |lab| == g.nVertices && Reachable(g, u, w)
    requires forall e :: 0 <= e < |g.edges| && g.edges[e].source < |lab| && g.edges[e].target < |lab| ==>
               lab[g.edges[e].source] == lab[g.edges[e].target]
    ensures u < |lab| && w < |lab| && lab[u] == lab[w]
  {
    var p :| IsWalk(g, p) && p[0] == u && p[|p| - 1] == w;
    WalkKeepsLabel(g, lab, p);
  }

  /** IDs of the edges among the first `n` edges that go from `a` to `b`, in ID order. */
  function EdgesUpTo(g: Graph, a: nat, b: nat, n: nat): seq<nat>
    requires n <= |g.edges|
  {
    if n == 0 then []
    else
      EdgesUpTo(g, a, b, n - 1) + (if g.edges[n - 1].source == a && g.edges[n - 1].target == b then [n - 1] else [])
  }

  /** IDs of all edges from `a` to `b`, in ID order: the out-edges of `a` whose target is `b`. */
  function EdgesBetween(g: Graph, a: nat, b: nat): seq<nat> {
    EdgesUpTo(g, a, b, |g.edges|)
  }

  lemma {:induction false} EdgesUpToMembers(g: Graph, a: nat, b: nat, n: nat)
    requires n <= |g.edges|
    ensures forall k :: 0 <= k < |EdgesUpTo(g, a, b, n)| ==> EdgesUpTo(g, a, b, n)[k] < n
    ensures forall e: nat :: e in EdgesUpTo(g, a, b, n) <==> e < n && g.edges[e].source == a && g.edges[e].target == b
  {
    if n > 0 {
      EdgesUpToMembers(g, a, b, n - 1);
    }
  }

  /** `EdgesBetween` lists exactly the edges from `a` to `b`, each once, in increasing ID order. */
  lemma EdgesBetweenMembers(g: Graph, a: nat, b: nat)
    ensures forall e: nat :: e in EdgesBetween(g, a, b) <==> e < |g.edges| && g.edges[e].source == a && g.edges[e].target == b
    ensures forall k, l :: 0 <= k < l < |EdgesBetween(g, a, b)| ==> EdgesBetween(g, a, b)[k] < EdgesBetween(g, a, b)[l]
  {
    EdgesUpToMembers(g, a, b, |g.edges|);
    EdgesUpToAscending(g, a, b, |g.edges|);
  }

  lemma {:induction false} EdgesUpToAscending(g: Graph, a: nat, b: nat, n: nat)
    requires n <= |g.edges|
    ensures forall k, l :: 0 <= k < l < |EdgesUpTo(g, a, b, n)| ==> EdgesUpTo(g, a, b, n)[k] < EdgesUpTo(g, a, b, n)[l]
  {
    if n > 0 {
      EdgesUpToAscending(g, a, b, n - 1);
      EdgesUpToMembers(g, a, b, n - 1);
    }
  }
}
