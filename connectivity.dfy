/** Connectivity queries on a graph, ignoring edge direction: whether the graph is connected, and a numbering of
 *  its connected components.  Both walk a work-list of vertex IDs; the work-list is a set whose least member is
 *  taken next. */
module GraphConnectivity {
  import opened Graphs
  import opened Counting
  import opened DenseIntegerSets

  /** Visits the out-edges and then the in-edges of vertex `id`, adding to the work-list every neighbour that
   *  `skip` does not rule out.  The result is the old work-list plus exactly those neighbours. */
  method InsertUnseenNeighbours(g: Graph, id: nat, skip: nat -> bool, worklist: set<nat>) returns (result: set<nat>)
    requires WellFormed(g) && id < g.nVertices
    ensures worklist <= result
    ensures forall u :: u in result && u !in worklist ==> u < g.nVertices && !skip(u) && Linked(g, id, u)
    ensures forall e :: 0 <= e < |g.edges| && g.edges[e].source == id && !skip(g.edges[e].target) ==>
              g.edges[e].target in result
    ensures forall e :: 0 <= e < |g.edges| && g.edges[e].target == id && !skip(g.edges[e].source) ==>
              g.edges[e].source in result
  {
    result := worklist;
    var k := 0;
    while k < |g.edges|
      invariant 0 <= k <= |g.edges|
      invariant worklist <= result
      invariant forall u :: u in result && u !in worklist ==> u < g.nVertices && !skip(u) && Linked(g, id, u)
      invariant forall e :: 0 <= e < k && g.edges[e].source == id && !skip(g.edges[e].target) ==>
                  g.edges[e].target in result
    {
      var e := g.edges[k];
      if e.source == id && !skip(e.target) {
        assert Joins(g, k, id, e.target);
        result := result + {e.target};
      }
      k := k + 1;
    }
    k := 0;
    while k < |g.edges|
      invariant 0 <= k <= |g.edges|
      invariant worklist <= result
      invariant forall u :: u in result && u !in worklist ==> u < g.nVertices && !skip(u) && Linked(g, id, u)
      invariant forall e :: 0 <= e < |g.edges| && g.edges[e].source == id && !skip(g.edges[e].target) ==>
                  g.edges[e].target in result
      invariant forall e :: 0 <= e < k && g.edges[e].target == id && !skip(g.edges[e].source) ==>
                  g.edges[e].source in result
    {
      var e := g.edges[k];
      if e.target == id && !skip(e.source) {
        assert Joins(g, k, id, e.source);
        result := result + {e.source};
      }
      k := k + 1;
    }
  }

  /** The graph is connected (every vertex reachable from vertex 0, edge directions ignored); an empty graph is
   *  connected. */
  method IsConnected(g: Graph) returns (connected: bool)
    requires WellFormed(g)
    ensures connected <==> (g.nVertices == 0 || forall u :: 0 <= u < g.nVertices ==> Reachable(g, 0, u))
  {
    var n := g.nVertices;
    if n == 0 {
      return true;
    }
    var seen := seq(n, _ => false);
    var nSeen := 0;
    var worklist: set<nat> := {0};
    ReachableRefl(g, 0);
    CountNone(seen, true);
    while worklist != {}
      invariant |seen| == n && nSeen == Count(seen, true)
      invariant forall u :: u in worklist ==> u < n && Reachable(g, 0, u)
      invariant forall u :: 0 <= u < n && seen[u] ==> Reachable(g, 0, u)
      invariant seen[0] || 0 in worklist
      invariant forall e :: 0 <= e < |g.edges| && seen[g.edges[e].source] ==>
                  seen[g.edges[e].target] || g.edges[e].target in worklist
      invariant forall e :: 0 <= e < |g.edges| && seen[g.edges[e].target] ==>
                  seen[g.edges[e].source] || g.edges[e].source in worklist
      decreases n - nSeen, |worklist|
    {
      var id := First(worklist);
      worklist := worklist - {id};
      if seen[id] {
        continue;
      }
      CountUpdate(seen, id, false, true);
      seen := seen[id := true];
      nSeen := nSeen + 1;
      var before := worklist;
      var now := seen;
      worklist := InsertUnseenNeighbours(g, id, (u: nat) => u < |now| && now[u], worklist);
      forall u | u in worklist ensures u < n && Reachable(g, 0, u) {
        if u !in before {
          ReachableStep(g, 0, id, u);
        }
      }
    }
    CountFull(seen, true);
    connected := nSeen == n;
    forall u | 0 <= u < n && seen[u] == seen[0] ensures seen[u] {}
    if forall u :: 0 <= u < n ==> Reachable(g, 0, u) {
      forall u | 0 <= u < n ensures seen[u] {
        ReachableKeepsLabel(g, seen, 0, u);
      }
    }
  }

  /** Label that a vertex carries before it is assigned to a component (`size_t(-1)` in Sawyer). */
  const NOT_SEEN: int := -1

  /** What holds between iterations of the component search's work-list loop: the vertices in the work list are
   *  reachable from `rootId` and unlabelled or labelled `c`, labels given before the search are kept, label `c`
   *  marks only vertices reachable from `rootId`, the root is labelled or still to be visited, and an edge whose
   *  ends differ has an end labelled `c` whose other end is still to be visited. */
  ghost predicate LabelInv(g: Graph, components: seq<int>, rootId: nat, c: nat, result: seq<int>, worklist: set<nat>)
    requires WellFormed(g) && |components| == g.nVertices
  {
    var n := g.nVertices;
    && |result| == n && rootId < n
    && (forall u :: u in worklist ==> u < n && Reachable(g, rootId, u) && (result[u] == NOT_SEEN || result[u] == c))
    && (forall u :: 0 <= u < n && components[u] != NOT_SEEN ==> result[u] == components[u])
    && (forall u :: 0 <= u < n && components[u] == NOT_SEEN ==> result[u] in {NOT_SEEN, c})
    && (forall u :: 0 <= u < n && result[u] == c ==> Reachable(g, rootId, u))
    && (result[rootId] == c || rootId in worklist)
    && (forall e :: 0 <= e < |g.edges| ==>
          || result[g.edges[e].source] == result[g.edges[e].target]
          || (result[g.edges[e].source] == c && g.edges[e].target in worklist)
          || (result[g.edges[e].target] == c && g.edges[e].source in worklist))
  }

  /** One iteration of the work-list loop: takes a vertex off the list and, unless it is labelled already, labels it
   *  `c` and adds its unlabelled neighbours.  Either a vertex lost `NOT_SEEN` or the list got shorter. */
  method LabelVertex(g: Graph, components: seq<int>, rootId: nat, c: nat, result: seq<int>, worklist: set<nat>)
    returns (result': seq<int>, worklist': set<nat>)
    requires WellFormed(g) && |components| == g.nVertices && c != NOT_SEEN
    requires LabelInv(g, components, rootId, c, result, worklist) && worklist != {}
    ensures LabelInv(g, components, rootId, c, result', worklist')
    ensures Count(result', NOT_SEEN) < Count(result, NOT_SEEN) || (result' == result && |worklist'| < |worklist|)
  {
    var n := g.nVertices;
    var id := First(worklist);
    worklist' := worklist - {id};
    result' := result;
    if result[id] != NOT_SEEN {
      return;
    }
    CountUpdate(result, id, NOT_SEEN, c);
    result' := result[id := c];
    var now := result';
    worklist' := InsertUnseenNeighbours(g, id, (u: nat) => u < |now| && now[u] != NOT_SEEN, worklist');
    forall u | u in worklist' ensures u < n && Reachable(g, rootId, u) {
      if u !in worklist {
        ReachableStep(g, rootId, id, u);
      }
    }
  }

  /** The inner work-list loop of the component search: gives label `c` to every vertex in the component of
   *  `rootId`.  All labels in use are below `c`, and both ends of every edge carry the same label. */
  method LabelComponent(g: Graph, components: seq<int>, rootId: nat, c: nat) returns (result: seq<int>)
    requires WellFormed(g) && |components| == g.nVertices && rootId < g.nVertices
    requires components[rootId] == NOT_SEEN
    requires forall u :: 0 <= u < g.nVertices ==> NOT_SEEN <= components[u] < c
    requires forall e :: 0 <= e < |g.edges| ==> components[g.edges[e].source] == components[g.edges[e].target]
    ensures |result| == g.nVertices && result[rootId] == c
    ensures forall u :: 0 <= u < g.nVertices && components[u] != NOT_SEEN ==> result[u] == components[u]
    ensures forall u :: 0 <= u < g.nVertices && components[u] == NOT_SEEN ==> result[u] in {NOT_SEEN, c}
    ensures forall u :: 0 <= u < g.nVertices && result[u] == c ==> Reachable(g, rootId, u)
    ensures forall e :: 0 <= e < |g.edges| ==> result[g.edges[e].source] == result[g.edges[e].target]
  {
    result := components;
    var worklist: set<nat> := {rootId};
    ReachableRefl(g, rootId);
    while worklist != {}
      invariant LabelInv(g, components, rootId, c, result, worklist)
      decreases Count(result, NOT_SEEN), |worklist|
    {
      result, worklist := LabelVertex(g, components, rootId, c, result, worklist);
    }
  }

  /** Numbers the connected components `0 .. nComponents-1` and maps every vertex to the number of its
   *  component: two vertices share a number exactly when each is reachable from the other. */
  method FindConnectedComponents(g: Graph) returns (nComponents: nat, components: seq<int>)
    requires WellFormed(g)
    ensures |components| == g.nVertices
    ensures forall u :: 0 <= u < g.nVertices ==> 0 <= components[u] < nComponents
    ensures forall u, w :: 0 <= u < g.nVertices && 0 <= w < g.nVertices ==>
              (components[u] == components[w] <==> Reachable(g, u, w))
    ensures forall c :: 0 <= c < nComponents ==> c in components
  {
    var n := g.nVertices;
    nComponents := 0;
    components := seq(n, _ => NOT_SEEN);
    ghost var roots: seq<nat> := [];
    for rootId := 0 to n
      invariant |components| == n && |roots| == nComponents
      invariant forall u :: 0 <= u < n ==> NOT_SEEN <= components[u] < nComponents
      invariant forall u :: 0 <= u < rootId ==> components[u] != NOT_SEEN
      invariant forall c :: 0 <= c < nComponents ==> roots[c] < n && components[roots[c]] == c
      invariant forall u :: 0 <= u < n && components[u] != NOT_SEEN ==> Reachable(g, roots[components[u]], u)
      invariant forall e :: 0 <= e < |g.edges| ==> components[g.edges[e].source] == components[g.edges[e].target]
    {
      if components[rootId] != NOT_SEEN {
        continue;
      }
      components := LabelComponent(g, components, rootId, nComponents);
      roots := roots + [rootId];
      nComponents := nComponents + 1;
    }
    forall u, w | 0 <= u < n && 0 <= w < n
      ensures components[u] == components[w] <==> Reachable(g, u, w)
    {
      if components[u] == components[w] {
        ReachableSymmetric(g, roots[components[u]], u);
        ReachableTrans(g, u, roots[components[u]], w);
      }
      if Reachable(g, u, w) {
        ReachableKeepsLabel(g, components, u, w);
      }
    }
    forall c | 0 <= c < nComponents ensures c in components {
      assert components[roots[c]] == c;
    }
  }
}
