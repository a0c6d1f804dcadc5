/** What a common-subgraph-isomorphism solution is, stated on values: the vertex-pair conditions the solver checks
 *  (the user's `mu`/`nu` predicates and equal edge counts), the candidate filters it applies to the vertex
 *  availability map, and the invariants that tie candidates to the partial solution. */
module CsiSpec {
  import opened Graphs

  /** `mu(i, j)`: vertex `i` of the first graph may be paired with vertex `j` of the second. */
  type Mu = (nat, nat) -> bool

  /** `nu(i1, i2, edges1, j1, j2, edges2)`: given the edges between `i1` and `i2` in the first graph and between
   *  `j1` and `j2` in the second, the pairs may correspond. */
  type Nu = (nat, nat, seq<nat>, nat, nat, seq<nat>) -> bool

  /** The vertex equivalence predicate object: its `mu` and `nu` members. */
  datatype Equivalence = Equivalence(mu: Mu, nu: Nu)

  /** The default equivalence accepts every pair. */
  function DefaultEquivalence(): (eq: Equivalence)
    ensures forall i, j :: eq.mu(i, j)
    ensures forall i1, i2, e1, j1, j2, e2 :: eq.nu(i1, i2, e1, j1, j2, e2)
  {
    Equivalence((i: nat, j: nat) => true, (i1: nat, i2: nat, e1: seq<nat>, j1: nat, j2: nat, e2: seq<nat>) => true)
  }

  /** The test applied when vertex `i` of the first graph is paired with `j` of the second: equal numbers of
   *  self-loops, `mu`, and `nu` over the self-loops. */
  predicate Admissible(g1: Graph, g2: Graph, eq: Equivalence, i: nat, j: nat) {
    var self1 := EdgesBetween(g1, i, i);
    var self2 := EdgesBetween(g2, j, j);
    |self1| == |self2| && eq.mu(i, j) && eq.nu(i, i, self1, j, j, self2)
  }

  /** Whether `iUnused` may join a solution that already pairs `i` with `j`, paired with `jUnused`: as many edges
   *  from `i` to `iUnused` as from `j` to `jUnused`, as many in the other direction, and, when there are edges at
   *  all, `nu` accepts them (forward edges first, then the reverse ones). */
  predicate EdgesSuitable(g1: Graph, g2: Graph, nu: Nu, i: nat, iUnused: nat, j: nat, jUnused: nat) {
    var forward1 := EdgesBetween(g1, i, iUnused);
    var forward2 := EdgesBetween(g2, j, jUnused);
    var reverse1 := EdgesBetween(g1, iUnused, i);
    var reverse2 := EdgesBetween(g2, jUnused, j);
    && |forward1| == |forward2|
    && |reverse1| == |reverse2|
    && (forward1 + reverse1 == [] || nu(i, iUnused, forward1 + reverse1, j, jUnused, forward2 + reverse2))
  }

  /** Under the default equivalence, pairing vertices and extending a solution depend on the graphs' structure
   *  alone: the numbers of self-loops, and of edges in each direction, must agree. */
  lemma DefaultEquivalenceIsStructural(g1: Graph, g2: Graph, i: nat, iUnused: nat, j: nat, jUnused: nat)
    ensures Admissible(g1, g2, DefaultEquivalence(), i, j) <==> |EdgesBetween(g1, i, i)| == |EdgesBetween(g2, j, j)|
    ensures EdgesSuitable(g1, g2, DefaultEquivalence().nu, i, iUnused, j, jUnused)
        <==> (|EdgesBetween(g1, i, iUnused)| == |EdgesBetween(g2, j, jUnused)|
              && |EdgesBetween(g1, iUnused, i)| == |EdgesBetween(g2, jUnused, j)|)
  {
  }

  /** No vertex occurs twice. */
  ghost predicate Distinct(s: seq<nat>) {
    forall k, l :: 0 <= k < l < |s| ==> s[k] != s[l]
  }

  /** The parallel vectors `x` (vertices of `g1`) and `y` (vertices of `g2`) define an isomorphism between the
   *  subgraphs they select: equal lengths, no repeats, every pair admissible, and every two pairs joined by
   *  suitable edges. */
  ghost predicate IsIsomorphism(g1: Graph, g2: Graph, eq: Equivalence, x: seq<nat>, y: seq<nat>) {
    && |x| == |y|
    && Distinct(x) && Distinct(y)
    && (forall k :: 0 <= k < |x| ==> x[k] < g1.nVertices && y[k] < g2.nVertices && Admissible(g1, g2, eq, x[k], y[k]))
    && (forall k, l :: 0 <= k < l < |x| ==> EdgesSuitable(g1, g2, eq.nu, x[k], x[l], y[k], y[l]))
  }

  /** The pair `(i, j)` may be appended to the partial solution `(x, y)`. */
  ghost predicate Compatible(g1: Graph, g2: Graph, eq: Equivalence, x: seq<nat>, y: seq<nat>, i: nat, j: nat)
    requires |x| == |y|
  {
    && i < g1.nVertices && j < g2.nVertices
    && i !in x && j !in y
    && Admissible(g1, g2, eq, i, j)
    && (forall k :: 0 <= k < |x| ==> EdgesSuitable(g1, g2, eq.nu, x[k], i, y[k], j))
  }

  lemma ExtendIsomorphism(g1: Graph, g2: Graph, eq: Equivalence, x: seq<nat>, y: seq<nat>, i: nat, j: nat)
    requires IsIsomorphism(g1, g2, eq, x, y) && Compatible(g1, g2, eq, x, y, i, j)
    ensures IsIsomorphism(g1, g2, eq, x + [i], y + [j])
  {
    var x', y' := x + [i], y + [j];
    assert forall k :: 0 <= k < |x| ==> x'[k] == x[k] && y'[k] == y[k];
    forall k, l | 0 <= k < l < |x'| ensures EdgesSuitable(g1, g2, eq.nu, x'[k], x'[l], y'[k], y'[l]) {
      if l == |x| {
        assert x'[l] == i && y'[l] == j;
      }
    }
  }

  /** An isomorphism preserves the number of edges between any two selected vertices, in each direction, and the
   *  number of self-loops. */
  lemma IsomorphismPreservesEdgeCounts(g1: Graph, g2: Graph, eq: Equivalence, x: seq<nat>, y: seq<nat>, k: nat, l: nat)
    requires IsIsomorphism(g1, g2, eq, x, y) && k < |x| && l < |x|
    ensures |EdgesBetween(g1, x[k], x[l])| == |EdgesBetween(g2, y[k], y[l])|
    ensures eq.mu(x[k], y[k])
  {
    if k < l {
      assert EdgesSuitable(g1, g2, eq.nu, x[k], x[l], y[k], y[l]);
    } else if l < k {
      assert EdgesSuitable(g1, g2, eq.nu, x[l], x[k], y[l], y[k]);
    } else {
      assert Admissible(g1, g2, eq, x[k], y[k]);
    }
  }

  /** Row `i` of a vertex availability map, empty when the row does not exist. */
  function RowOf(rows: seq<seq<nat>>, i: nat): seq<nat> {
    if i < |rows| then rows[i] else []
  }

  /** Every candidate in a row of an available vertex can extend the partial solution `(x, y)`. */
  ghost predicate CandidatesSound(g1: Graph, g2: Graph, eq: Equivalence, rows: seq<seq<nat>>, x: seq<nat>,
                                  y: seq<nat>, avail: set<nat>)
    requires |x| == |y|
  {
    forall i, j :: i in avail && j in RowOf(rows, i) ==> Compatible(g1, g2, eq, x, y, i, j)
  }

  /** Candidate `j` of vertex `i` survives the refinement after `(i0, j0)` joined the solution. */
  predicate Kept(g1: Graph, g2: Graph, nu: Nu, i0: nat, i: nat, j0: nat, j: nat) {
    j != j0 && EdgesSuitable(g1, g2, nu, i0, i, j0, j)
  }

  /** The row a refinement keeps for vertex `i` after `(i0, j0)` joined the solution: the candidates of `row`, in
   *  their order, other than `j0` and whose edges to and from `j0` suit those of `i` to and from `i0`. */
  function RefineRow(g1: Graph, g2: Graph, nu: Nu, row: seq<nat>, i0: nat, i: nat, j0: nat): seq<nat> {
    if |row| == 0 then []
    else
      var j := row[|row| - 1];
      RefineRow(g1, g2, nu, row[..|row| - 1], i0, i, j0) + (if Kept(g1, g2, nu, i0, i, j0, j) then [j] else [])
  }

  lemma {:induction false} RefineRowMembers(g1: Graph, g2: Graph, nu: Nu, row: seq<nat>, i0: nat, i: nat, j0: nat)
    ensures forall j :: j in RefineRow(g1, g2, nu, row, i0, i, j0) <==>
              j in row && j != j0 && EdgesSuitable(g1, g2, nu, i0, i, j0, j)
  {
    if |row| > 0 {
      RefineRowMembers(g1, g2, nu, row[..|row| - 1], i0, i, j0);
      assert row == row[..|row| - 1] + [row[|row| - 1]];
    }
  }

  /** `idx` picks the elements of `sub` out of `s` at strictly increasing positions. */
  ghost predicate Embeds(idx: seq<nat>, sub: seq<nat>, s: seq<nat>) {
    && |idx| == |sub|
    && (forall k :: 0 <= k < |idx| ==> idx[k] < |s| && s[idx[k]] == sub[k])
    && (forall k, l :: 0 <= k < l < |idx| ==> idx[k] < idx[l])
  }

  /** `sub` is a subsequence of `s`. */
  ghost predicate IsSubsequence(sub: seq<nat>, s: seq<nat>) {
    exists idx :: Embeds(idx, sub, s)
  }

  lemma {:induction false} RefineRowEmbedding(g1: Graph, g2: Graph, nu: Nu, row: seq<nat>, i0: nat, i: nat, j0: nat)
    returns (idx: seq<nat>)
    ensures Embeds(idx, RefineRow(g1, g2, nu, row, i0, i, j0), row)
  {
    if |row| == 0 {
      idx := [];
    } else {
      var front := row[..|row| - 1];
      var j := row[|row| - 1];
      idx := RefineRowEmbedding(g1, g2, nu, front, i0, i, j0);
      if Kept(g1, g2, nu, i0, i, j0, j) {
        idx := idx + [|row| - 1];
      }
    }
  }

  /** A refined row is a subsequence of its parent row. */
  lemma RefineRowIsSubsequence(g1: Graph, g2: Graph, nu: Nu, row: seq<nat>, i0: nat, i: nat, j0: nat)
    ensures IsSubsequence(RefineRow(g1, g2, nu, row, i0, i, j0), row)
  {
    var idx := RefineRowEmbedding(g1, g2, nu, row, i0, i, j0);
  }

  /** Refining every available row after `(i0, j0)` joins the solution keeps every candidate sound for the
   *  extended solution. */
  lemma RefinePreservesSoundness(g1: Graph, g2: Graph, eq: Equivalence, rows: seq<seq<nat>>, refined: seq<seq<nat>>,
                                 x: seq<nat>, y: seq<nat>, avail: set<nat>, i0: nat, j0: nat)
    requires |x| == |y| && CandidatesSound(g1, g2, eq, rows, x, y, avail)
    requires forall i :: i in avail - {i0} ==> RowOf(refined, i) == RefineRow(g1, g2, eq.nu, RowOf(rows, i), i0, i, j0)
    ensures CandidatesSound(g1, g2, eq, refined, x + [i0], y + [j0], avail - {i0})
  {
    var x', y' := x + [i0], y + [j0];
    forall i, j | i in avail - {i0} && j in RowOf(refined, i) ensures Compatible(g1, g2, eq, x', y', i, j) {
      RefineRowMembers(g1, g2, eq.nu, RowOf(rows, i), i0, i, j0);
      assert Compatible(g1, g2, eq, x, y, i, j);
      forall k | 0 <= k < |x'| ensures EdgesSuitable(g1, g2, eq.nu, x'[k], i, y'[k], j) {
        if k < |x| {
          assert x'[k] == x[k] && y'[k] == y[k];
        }
      }
    }
  }
}
