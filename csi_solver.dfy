/** The common-subgraph-isomorphism solver: a backtracking search that grows two parallel vectors `x` (vertices
 *  of the first graph) and `y` (vertices of the second graph) one pair at a time, guided by the vertex
 *  availability map, and hands each complete solution to a solution processor. */
module CommonSubgraphIsomorphism {
  import opened Graphs
  import opened CsiSpec
  import opened CsiVam
  import opened DenseIntegerSets

  /** `size_t(-1)`, the default maximum solution size. */
  const SIZE_MAX: nat := 0xFFFF_FFFF_FFFF_FFFF

  /** How the search goes on after a solution is processed. */
  datatype Action = Continue | Abort

  /** A solution: `x[k]` of the first graph corresponds to `y[k]` of the second. */
  datatype Solution = Solution(x: seq<nat>, y: seq<nat>)

  /** The solution processor, as the decision it takes given the solutions it was handed before. */
  type Processor = (seq<Solution>, Solution) -> Action

  /** What stays fixed while a search runs: the graphs, the predicates and the solver's settings except the
   *  minimum size, which a monotonic search raises. */
  datatype Problem = Problem(g1: Graph, g2: Graph, eq: Equivalence, processor: Processor,
                             maximum: nat, monotonic: bool, common: bool)

  /** The processor's answer to the `k`-th solution of `log`. */
  function Decision(processor: Processor, log: seq<Solution>, k: nat): Action
    requires k < |log|
  {
    processor(log[..k], log[k])
  }

  /** A solution size the solver accepts: between the bounds when finding common subgraphs, otherwise the
   *  whole of the first graph. */
  predicate ValidSize(p: Problem, size: nat, minimum: nat) {
    if p.common then minimum <= size <= p.maximum else size == p.g1.nVertices
  }

  /** The solutions `log[n0..]` were delivered by a search that started with minimum size `min0` and ended with
   *  `min1`: each is an isomorphism of valid size, the processor continued after all but possibly the last, a
   *  monotonic search delivered them in non-decreasing size and left the minimum at the last size, and the
   *  minimum changed only if the search is monotonic. */
  ghost predicate LogSince(p: Problem, log: seq<Solution>, n0: nat, min0: nat, min1: nat) {
    && n0 <= |log|
    && (forall k :: n0 <= k < |log| ==>
          IsIsomorphism(p.g1, p.g2, p.eq, log[k].x, log[k].y) && ValidSize(p, |log[k].x|, min0))
    && (forall k :: n0 <= k < |log| - 1 ==> Decision(p.processor, log, k) == Continue)
    && (p.common ==> min0 <= min1)
    && (!p.monotonic ==> min1 == min0)
    && (p.monotonic ==> min1 == if n0 < |log| then |log[|log| - 1].x| else min0)
    && (p.monotonic ==> forall k, l :: n0 <= k <= l < |log| ==> |log[k].x| <= |log[l].x|)
  }

  /** The search that delivered `log[n0..]` was stopped by the processor. */
  predicate Aborted(p: Problem, log: seq<Solution>, n0: nat) {
    n0 < |log| && Decision(p.processor, log, |log| - 1) == Abort
  }

  lemma LogSinceEmpty(p: Problem, log: seq<Solution>, m: nat)
    ensures LogSince(p, log, |log|, m, m)
  {
  }

  lemma DecisionPrefix(p: Problem, log: seq<Solution>, log': seq<Solution>, k: nat)
    requires log <= log' && k < |log|
    ensures Decision(p.processor, log', k) == Decision(p.processor, log, k)
  {
    assert log'[..k] == log[..k];
  }

  /** Two searches run one after the other, the first not stopped by the processor, make one search. */
  lemma {:induction false} LogSinceCompose(p: Problem, log1: seq<Solution>, log2: seq<Solution>,
                                           n0: nat, min0: nat, min1: nat, min2: nat)
    requires LogSince(p, log1, n0, min0, min1) && log1 <= log2 && LogSince(p, log2, |log1|, min1, min2)
    requires !Aborted(p, log1, n0)
    ensures LogSince(p, log2, n0, min0, min2)
  {
    var n1 := |log1|;
    forall k | n0 <= k < |log2| - 1 ensures Decision(p.processor, log2, k) == Continue {
      if k < n1 {
        DecisionPrefix(p, log1, log2, k);
        assert k < n1 - 1 || !Aborted(p, log1, n0);
      }
    }
    forall k | n0 <= k < |log2| ensures ValidSize(p, |log2[k].x|, min0) {
      if k < n1 {
        assert log2[k] == log1[k];
      }
    }
    if p.monotonic {
      forall k, l | n0 <= k <= l < |log2| ensures |log2[k].x| <= |log2[l].x| {
        if k < n1 && l >= n1 {
          assert log2[k] == log1[k];
          assert |log1[k].x| <= |log1[n1 - 1].x|;
          if !p.common {
            assert ValidSize(p, |log2[l].x|, min1) && ValidSize(p, |log1[k].x|, min0);
          }
        } else if l < n1 {
          assert log2[k] == log1[k] && log2[l] == log1[l];
        }
      }
      if n1 == |log2| {
        assert log2 == log1;
      }
    }
  }

  /** A search that was not stopped, followed by another that was not stopped, was not stopped. */
  lemma NotAbortedCompose(p: Problem, log1: seq<Solution>, log2: seq<Solution>, n0: nat)
    requires n0 <= |log1| && log1 <= log2 && !Aborted(p, log1, n0) && !Aborted(p, log2, |log1|)
    ensures !Aborted(p, log2, n0)
  {
    if |log2| == |log1| {
      assert log2 == log1;
    }
  }

  /** Delivering one solution of valid size to the processor makes a search of its own. */
  lemma LogSinceDeliver(p: Problem, log: seq<Solution>, s: Solution, min0: nat, min1: nat)
    requires IsIsomorphism(p.g1, p.g2, p.eq, s.x, s.y) && ValidSize(p, |s.x|, min0)
    requires min1 == if p.monotonic then |s.x| else min0
    ensures LogSince(p, log + [s], |log|, min0, min1)
  {
  }

  /** The vertex IDs `0 .. n-1`: what `insertAll` puts in a vertex set. */
  function AllVertices(n: nat): (s: set<nat>)
    ensures forall i: nat :: i in s <==> i < n
  {
    if n == 0 then {} else AllVertices(n - 1) + {n - 1}
  }

  lemma {:induction false} AllVerticesSize(n: nat)
    ensures |AllVertices(n)| == n
  {
    if n > 0 {
      AllVerticesSize(n - 1);
    }
  }

  /** A sequence without repeats drawn from `a` is no longer than `a` is large. */
  lemma {:induction false} DistinctWithin(s: seq<nat>, a: set<nat>)
    requires Distinct(s) && forall k :: 0 <= k < |s| ==> s[k] in a
    ensures |s| <= |a|
  {
    if s != [] {
      var front, last := s[..|s| - 1], s[|s| - 1];
      assert forall k :: 0 <= k < |front| ==> front[k] == s[k] && s[k] != last;
      DistinctWithin(front, a - {last});
    }
  }

  /** A sequence of distinct vertex IDs below `n` has at most `n` elements. */
  lemma DistinctBelow(s: seq<nat>, n: nat)
    requires Distinct(s) && forall k :: 0 <= k < |s| ==> s[k] < n
    ensures |s| <= n
  {
    AllVerticesSize(n);
    DistinctWithin(s, AllVertices(n));
  }

  /** An isomorphism between subgraphs selects no more vertices than either graph has. */
  lemma IsomorphismBound(g1: Graph, g2: Graph, eq: Equivalence, x: seq<nat>, y: seq<nat>)
    requires IsIsomorphism(g1, g2, eq, x, y)
    ensures |x| <= g1.nVertices && |y| <= g2.nVertices
  {
    DistinctBelow(x, g1.nVertices);
    DistinctBelow(y, g2.nVertices);
  }

  /** Appends to `result` the IDs of the edges from `sourceVertex` to `targetVertex`, in ID order. */
  method FindEdges(g: Graph, sourceVertex: nat, targetVertex: nat, result: seq<nat>) returns (found: seq<nat>)
    ensures found == result + EdgesBetween(g, sourceVertex, targetVertex)
  {
    found := result;
    for k := 0 to |g.edges|
      invariant found == result + EdgesUpTo(g, sourceVertex, targetVertex, k)
    {
      if g.edges[k].source == sourceVertex && g.edges[k].target == targetVertex {
        found := found + [k];
      }
    }
  }

  class Solver {
    const g1: Graph
    const g2: Graph
    const equivalence: Equivalence
    const processor: Processor
    /** Available vertices of `g1` and of `g2`. */
    var v: set<nat>
    var w: set<nat>
    /** The partial solution: `x[k]` of `g1` is paired with `y[k]` of `g2`. */
    var x: seq<nat>
    var y: seq<nat>
    /** The available vertices of `g1` not in `x`. */
    var vNotX: set<nat>
    var minimumSolutionSize: nat
    var maximumSolutionSize: nat
    var monotonicallyIncreasing: bool
    var findingCommonSubgraphs: bool
    /** Every solution handed to the processor so far, in order. */
    var delivered: seq<Solution>

    function Fixed(): Problem
      reads this
    {
      Problem(g1, g2, equivalence, processor, maximumSolutionSize, monotonicallyIncreasing, findingCommonSubgraphs)
    }

    /** The bookkeeping the search keeps: available vertices exist, `x` and `y` are parallel, `x` has no repeats
     *  and lies in `v`, and `vNotX` is `v` without `x`. */
    ghost predicate Valid()
      reads this
    {
      && (forall i :: i in v ==> i < g1.nVertices)
      && (forall j :: j in w ==> j < g2.nVertices)
      && |x| == |y| && Distinct(x)
      && (forall k :: 0 <= k < |x| ==> x[k] in v)
      && (forall i :: i in vNotX <==> i in v && i !in x)
    }

    constructor (g1: Graph, g2: Graph, processor: Processor, equivalence: Equivalence)
      ensures Valid()
      ensures this.g1 == g1 && this.g2 == g2 && this.processor == processor && this.equivalence == equivalence
      ensures v == {} && w == {} && vNotX == {} && x == [] && y == [] && delivered == []
      ensures minimumSolutionSize == 1 && maximumSolutionSize == SIZE_MAX
      ensures !monotonicallyIncreasing && findingCommonSubgraphs
    {
      this.g1 := g1;
      this.g2 := g2;
      this.processor := processor;
      this.equivalence := equivalence;
      v, w, vNotX := {}, {}, {};
      x, y := [], [];
      minimumSolutionSize := 1;
      maximumSolutionSize := SIZE_MAX;
      monotonicallyIncreasing := false;
      findingCommonSubgraphs := true;
      delivered := [];
    }

    /** Runs the analysis from the beginning: every solution handed to the processor is an isomorphism of valid size,
     *  the processor was answered `Continue` for all but possibly the last, and a run it did not stop ends with
     *  every vertex available and an empty partial solution. */
    method Run()
      modifies this
      ensures Valid() && Fixed() == old(Fixed()) && old(delivered) <= delivered
      ensures LogSince(Fixed(), delivered, |old(delivered)|, old(minimumSolutionSize), minimumSolutionSize)
      ensures !Aborted(Fixed(), delivered, |old(delivered)|) ==>
                x == [] && y == [] && v == AllVertices(g1.nVertices) && vNotX == AllVertices(g1.nVertices)
      ensures w == AllVertices(g2.nVertices)
    {
      Reset();
      var vam := InitializeVam();
      forall i, j | i in vNotX && j in RowOf(vam.rows, i) ensures Compatible(g1, g2, equivalence, x, y, i, j) {
        assert InitialRow(vam.Get(i), i);
      }
      var action := Recurse(vam);
    }

    /** Makes every vertex available again and empties the partial solution. */
    method Reset()
      modifies this`v, this`w, this`x, this`y, this`vNotX
      ensures Valid()
      ensures v == AllVertices(g1.nVertices) && w == AllVertices(g2.nVertices) && vNotX == AllVertices(g1.nVertices) && x == [] && y == []
    {
      v := AllVertices(g1.nVertices);
      w := AllVertices(g2.nVertices);
      x, y := [], [];
      vNotX := AllVertices(g1.nVertices);
    }

    /** The initial row of vertex `i`: the available vertices of `g2` admissible with it, in ascending order. */
    ghost predicate InitialRow(row: seq<nat>, i: nat)
      reads this
    {
      Ascending(row) && forall j :: j in row <==> j in w && Admissible(g1, g2, equivalence, i, j)
    }

    /** The VAM before any pair is chosen: row `i` of every available `i` lists, in ascending order, the available
     *  `j` admissible with it. */
    method InitializeVam() returns (vam: Vam)
      requires Valid()
      ensures fresh(vam) && vam.Valid()
      ensures forall i :: i !in v ==> vam.Get(i) == []
      ensures forall i :: i in v ==> InitialRow(vam.Get(i), i)
    {
      vam := new Vam();
      var rowsLeft := v;
      while rowsLeft != {}
        invariant rowsLeft <= v && fresh(vam) && vam.Valid()
        invariant forall i :: vam.Started(i) <==> i in v - rowsLeft
        invariant forall i :: i !in v - rowsLeft ==> vam.Get(i) == []
        invariant forall i :: i in v - rowsLeft ==> InitialRow(vam.Get(i), i)
        decreases |rowsLeft|
      {
        var i := First(rowsLeft);
        rowsLeft := rowsLeft - {i};
        vam.StartNewRow(i, |w|);
        FillRow(vam, i);
      }
    }

    /** Fills row `i`, just started, with the admissible vertices of `w` in ascending order. */
    method FillRow(vam: Vam, i: nat)
      requires vam.Valid() && vam.lastRowStarted == i && vam.Get(i) == []
      modifies vam
      ensures vam.Valid() && vam.lastRowStarted == i
      ensures forall k :: vam.Started(k) <==> old(vam.Started(k))
      ensures forall k :: k != i ==> vam.Get(k) == old(vam.Get(k))
      ensures InitialRow(vam.Get(i), i)
    {
      var columnsLeft := w;
      ghost var lo: nat := 0;
      ghost var before := vam.rows;
      while columnsLeft != {}
        invariant vam.Valid() && vam.lastRowStarted == i
        invariant forall k :: vam.Started(k) <==> old(vam.Started(k))
        invariant forall k :: k != i ==> vam.Get(k) == RowOf(before, k)
        invariant forall j :: j in columnsLeft <==> j in w && lo <= j
        invariant Ascending(vam.Get(i)) && forall k :: 0 <= k < |vam.Get(i)| ==> vam.Get(i)[k] < lo
        invariant forall j :: j in vam.Get(i) <==> j in w && j < lo && Admissible(g1, g2, equivalence, i, j)
        decreases |columnsLeft|
      {
        var j := First(columnsLeft);
        columnsLeft := columnsLeft - {j};
        var selfEdges1 := FindEdges(g1, i, i, []);
        var selfEdges2 := FindEdges(g2, j, j, []);
        assert selfEdges1 == EdgesBetween(g1, i, i) && selfEdges2 == EdgesBetween(g2, j, j);
        if |selfEdges1| == |selfEdges2| && equivalence.mu(i, j) && equivalence.nu(i, i, selfEdges1, j, j, selfEdges2) {
          vam.Push(i, j);
        }
        lo := j + 1;
      }
    }

    /** The size a solution must reach: the minimum when finding common subgraphs, otherwise all of `g1`. */
    function Threshold(): nat
      reads this
    {
      if findingCommonSubgraphs then minimumSolutionSize else g1.nVertices
    }

    /** Whether this branch of the search can still reach a solution of permitted size: not when the partial
     *  solution is already at the maximum (common subgraphs only), and otherwise exactly when some available vertex
     *  has candidates and `x` extended by one pair for each such vertex reaches the threshold. */
    method IsSolutionPossible(vam: Vam) returns (possible: bool)
      ensures possible <==>
                && !(findingCommonSubgraphs && |x| >= maximumSolutionSize)
                && |NonEmptyRows(vam.rows, vNotX)| > 0
                && |x| + |NonEmptyRows(vam.rows, vNotX)| >= Threshold()
    {
      if findingCommonSubgraphs && |x| >= maximumSolutionSize {
        return false;
      }
      var largestPossibleSolution := |x|;
      var remaining := vNotX;
      while remaining != {}
        invariant remaining <= vNotX
        invariant largestPossibleSolution == |x| + |NonEmptyRows(vam.rows, vNotX - remaining)|
        invariant largestPossibleSolution > |x| ==> largestPossibleSolution < Threshold()
        decreases |remaining|
      {
        var i := First(remaining);
        NonEmptyRowsStep(vam.rows, vNotX, remaining, i);
        remaining := remaining - {i};
        if vam.Size(i) > 0 {
          largestPossibleSolution := largestPossibleSolution + 1;
          if (findingCommonSubgraphs && largestPossibleSolution >= minimumSolutionSize) ||
             (!findingCommonSubgraphs && largestPossibleSolution >= g1.nVertices) {
            NonEmptyRowsSubset(vam.rows, vNotX - remaining, vNotX);
            return true;
          }
        }
      }
      assert vNotX - remaining == vNotX;
      return false;
    }

    /** The available vertex with the fewest candidates, the least such vertex on a tie. */
    method PickVertex(vam: Vam) returns (i: nat)
      requires exists k :: k in vNotX && vam.Size(k) > 0
      ensures i in vNotX && vam.Size(i) > 0
      ensures forall k :: k in vNotX && vam.Size(k) > 0 ==> vam.Size(i) <= vam.Size(k)
      ensures forall k :: k in vNotX && k < i && vam.Size(k) > 0 ==> vam.Size(i) < vam.Size(k)
    {
      var shortestRowLength: nat := 0;
      var retval: int := -1;
      var remaining := vNotX;
      while remaining != {}
        invariant remaining <= vNotX
        invariant forall a, b :: a in vNotX - remaining && b in remaining ==> a < b
        invariant retval == -1 ==> forall k :: k in vNotX - remaining ==> vam.Size(k) == 0
        invariant retval != -1 ==> 0 <= retval && retval in vNotX - remaining && vam.Size(retval) > 0
        invariant retval != -1 ==> shortestRowLength == vam.Size(retval)
        invariant retval != -1 ==> forall k :: k in vNotX - remaining && vam.Size(k) > 0 ==> shortestRowLength <= vam.Size(k)
        invariant retval != -1 ==> forall k :: k in vNotX - remaining && k < retval && vam.Size(k) > 0 ==>
                                     shortestRowLength < vam.Size(k)
        decreases |remaining|
      {
        var k := First(remaining);
        assert vNotX - (remaining - {k}) == (vNotX - remaining) + {k};
        remaining := remaining - {k};
        var vs := vam.Size(k);
        if vs > 0 && (retval == -1 || vs < shortestRowLength) {
          shortestRowLength := vs;
          retval := k;
        }
      }
      assert vNotX - remaining == vNotX;
      assert retval != -1;
      i := retval;
    }

    /** Adds the pair `(i, j)` to the partial solution. */
    method ExtendSolution(i: nat, j: nat)
      requires Valid() && |x| == |y| && i !in x && j !in y && i in vNotX
      modifies this`x, this`y, this`vNotX
      ensures Valid()
      ensures x == old(x) + [i] && y == old(y) + [j] && vNotX == old(vNotX) - {i}
    {
      x := x + [i];
      y := y + [j];
      vNotX := vNotX - {i};
    }

    /** Removes the most recently added pair from the partial solution. */
    method RetractSolution()
      requires Valid() && |x| == |y| && |x| > 0 && x[|x| - 1] !in vNotX
      modifies this`x, this`y, this`vNotX
      ensures Valid()
      ensures x == old(x[..|x| - 1]) && y == old(y[..|y| - 1]) && vNotX == old(vNotX) + {old(x[|x| - 1])}
    {
      var i := x[|x| - 1];
      x := x[..|x| - 1];
      y := y[..|y| - 1];
      vNotX := vNotX + {i};
    }

    /** Retracting right after extending restores the partial solution and the available vertices. */
    method ExtendThenRetract(i: nat, j: nat)
      requires Valid() && |x| == |y| && i !in x && j !in y && i in vNotX
      modifies this`x, this`y, this`vNotX
      ensures Valid() && x == old(x) && y == old(y) && vNotX == old(vNotX)
    {
      ExtendSolution(i, j);
      RetractSolution();
    }

    /** Whether `iUnused` may be paired with `jUnused` once `(i, j)` is in the solution, judged by the edges between
     *  the two vertices of each graph. */
    method EdgesAreSuitable(i: nat, iUnused: nat, j: nat, jUnused: nat) returns (suitable: bool)
      requires i != iUnused && j != jUnused
      ensures suitable == EdgesSuitable(g1, g2, equivalence.nu, i, iUnused, j, jUnused)
    {
      var edges1 := FindEdges(g1, i, iUnused, []);
      var edges2 := FindEdges(g2, j, jUnused, []);
      assert edges1 == EdgesBetween(g1, i, iUnused) && edges2 == EdgesBetween(g2, j, jUnused);
      if |edges1| != |edges2| {
        return false;
      }
      edges1 := FindEdges(g1, iUnused, i, edges1);
      edges2 := FindEdges(g2, jUnused, j, edges2);
      if |edges1| != |edges2| {
        return false;
      }
      if |edges1| == 0 && |edges2| == 0 {
        return true;
      }
      suitable := equivalence.nu(i, iUnused, edges1, j, jUnused, edges2);
    }

    /** Fills the empty VAM `refined` from `vam` after the last pair of the solution was added: the row of every
     *  available vertex keeps the candidates that suit the new pair. */
    method Refine(vam: Vam, refined: Vam)
      requires |x| == |y| && |x| > 0 && x[|x| - 1] !in vNotX && refined != vam && refined.Valid() && refined.rows == []
      modifies refined
      ensures refined.Valid()
      ensures forall i :: refined.Get(i) ==
                if i in vNotX then RefineRow(g1, g2, equivalence.nu, vam.Get(i), x[|x| - 1], i, y[|y| - 1]) else []
    {
      ghost var i0, j0 := x[|x| - 1], y[|y| - 1];
      var remaining := vNotX;
      while remaining != {}
        invariant remaining <= vNotX && refined.Valid()
        invariant forall i :: refined.Started(i) <==> i in vNotX - remaining
        invariant forall i :: i in vNotX - remaining ==> refined.Get(i) == RefineRow(g1, g2, equivalence.nu, vam.Get(i), i0, i, j0)
        invariant forall i :: i !in vNotX - remaining ==> refined.Get(i) == []
        decreases |remaining|
      {
        var i := First(remaining);
        remaining := remaining - {i};
        RefineVertex(vam, refined, i);
      }
    }

    /** The body of the loop of `Refine`: starts row `i` of `refined`, sized after row `i` of `vam`, and fills it. */
    method RefineVertex(vam: Vam, refined: Vam, i: nat)
      requires |x| == |y| && |x| > 0 && x[|x| - 1] !in vNotX && i in vNotX && refined != vam
      requires refined.Valid() && !refined.Started(i)
      modifies refined
      ensures refined.Valid()
      ensures forall k :: refined.Started(k) <==> old(refined.Started(k)) || k == i
      ensures forall k :: k != i ==> refined.Get(k) == old(refined.Get(k))
      ensures refined.Get(i) == RefineRow(g1, g2, equivalence.nu, vam.Get(i), x[|x| - 1], i, y[|y| - 1])
    {
      var rowLength := vam.Size(i);
      refined.StartNewRow(i, rowLength);
      RefineRowInto(vam, refined, i);
    }

    /** The inner loop of `Refine`: pushes onto row `i` of `refined` the candidates of row `i` of `vam` that suit
     *  the last pair of the solution. */
    method RefineRowInto(vam: Vam, refined: Vam, i: nat)
      requires |x| == |y| && |x| > 0 && x[|x| - 1] !in vNotX && i in vNotX && refined != vam
      requires refined.Valid() && refined.lastRowStarted == i && refined.Get(i) == []
      modifies refined
      ensures refined.Valid()
      ensures forall k :: refined.Started(k) <==> old(refined.Started(k))
      ensures forall k :: k != i ==> refined.Get(k) == old(refined.Get(k))
      ensures refined.Get(i) == RefineRow(g1, g2, equivalence.nu, vam.Get(i), x[|x| - 1], i, y[|y| - 1])
    {
      var row := vam.Get(i);
      var i0, j0 := x[|x| - 1], y[|y| - 1];
      ghost var before := refined.rows;
      for k := 0 to |row|
        invariant refined.Valid() && refined.lastRowStarted == i
        invariant forall k' :: refined.Started(k') <==> old(refined.Started(k'))
        invariant forall k' :: k' != i ==> refined.Get(k') == RowOf(before, k')
        invariant refined.Get(i) == RefineRow(g1, g2, equivalence.nu, row[..k], i0, i, j0)
      {
        assert row[..k + 1][..k] == row[..k];
        var j := row[k];
        var keep := j != j0;
        if keep {
          keep := EdgesAreSuitable(i0, i, j0, j);
        }
        if keep {
          refined.Push(i, j);
        }
      }
      assert row[..|row|] == row;
    }

    /** Whether the partial solution has a size the processor may be handed: neither too small nor too big. */
    function IsSolutionValidSize(): (valid: bool)
      reads this
      ensures valid <==> ValidSize(Fixed(), |x|, minimumSolutionSize)
      ensures valid && findingCommonSubgraphs ==> minimumSolutionSize <= |x| <= maximumSolutionSize
      ensures valid && !findingCommonSubgraphs ==> |x| == g1.nVertices
    {
      ValidSize(Fixed(), |x|, minimumSolutionSize)
    }

    /** Hands the solution to the processor and records it. */
    method Deliver(s: Solution) returns (decision: Action)
      modifies this`delivered
      ensures delivered == old(delivered) + [s]
      ensures decision == processor(old(delivered), s)
    {
      decision := processor(delivered, s);
      delivered := delivered + [s];
    }

    /** The main search.  Every solution it hands to the processor is an isomorphism whose size is valid for the
     *  minimum of the moment; it stops as soon as the processor answers `Abort` and reports that; otherwise it
     *  leaves the partial solution and the available vertices as it found them. */
    method Recurse(vam: Vam) returns (action: Action)
      requires Valid() && vam.Valid() && IsIsomorphism(g1, g2, equivalence, x, y)
      requires CandidatesSound(g1, g2, equivalence, vam.rows, x, y, vNotX)
      modifies this
      ensures Valid() && Fixed() == old(Fixed()) && w == old(w)
      ensures action == Continue ==> x == old(x) && y == old(y) && v == old(v) && vNotX == old(vNotX)
      ensures old(delivered) <= delivered
      ensures LogSince(Fixed(), delivered, |old(delivered)|, old(minimumSolutionSize), minimumSolutionSize)
      ensures action == Abort <==> Aborted(Fixed(), delivered, |old(delivered)|)
      decreases vNotX, 3
    {
      var possible := IsSolutionPossible(vam);
      if possible {
        action := Extend(vam);
      } else if IsSolutionValidSize() {
        action := Report();
      } else {
        LogSinceEmpty(Fixed(), delivered, minimumSolutionSize);
        action := Continue;
      }
    }

    /** The branch of `recurse` taken while a large enough solution is still possible: picks the vertex with the
     *  fewest candidates, tries each of them, and when finding common subgraphs tries again without that vertex. */
    method Extend(vam: Vam) returns (action: Action)
      requires Valid() && vam.Valid() && IsIsomorphism(g1, g2, equivalence, x, y)
      requires CandidatesSound(g1, g2, equivalence, vam.rows, x, y, vNotX)
      requires |NonEmptyRows(vam.rows, vNotX)| > 0
      modifies this
      ensures Valid() && Fixed() == old(Fixed()) && w == old(w)
      ensures action == Continue ==> x == old(x) && y == old(y) && v == old(v) && vNotX == old(vNotX)
      ensures old(delivered) <= delivered
      ensures LogSince(Fixed(), delivered, |old(delivered)|, old(minimumSolutionSize), minimumSolutionSize)
      ensures action == Abort <==> Aborted(Fixed(), delivered, |old(delivered)|)
      decreases vNotX, 2
    {
      ghost var some :| some in NonEmptyRows(vam.rows, vNotX);
      var i := PickVertex(vam);
      action := TryCandidates(vam, i);
      if action == Abort || !findingCommonSubgraphs {
        return action;
      }
      ghost var log1, min1 := delivered, minimumSolutionSize;
      // Try again after removing vertex `i` from consideration.
      action := TryWithout(vam, i);
      LogSinceCompose(Fixed(), log1, delivered, |old(delivered)|, old(minimumSolutionSize), min1, minimumSolutionSize);
      if action == Continue {
        NotAbortedCompose(Fixed(), log1, delivered, |old(delivered)|);
      }
    }

    /** The leaf of `recurse`: raises the minimum to the solution's size when the search is monotonic and hands the
     *  solution to the processor. */
    method Report() returns (action: Action)
      requires Valid() && IsIsomorphism(g1, g2, equivalence, x, y) && IsSolutionValidSize()
      modifies this`minimumSolutionSize, this`delivered
      ensures minimumSolutionSize == if monotonicallyIncreasing then |x| else old(minimumSolutionSize)
      ensures delivered == old(delivered) + [Solution(x, y)]
      ensures LogSince(Fixed(), delivered, |old(delivered)|, old(minimumSolutionSize), minimumSolutionSize)
      ensures action == Abort <==> Aborted(Fixed(), delivered, |old(delivered)|)
    {
      if monotonicallyIncreasing {
        minimumSolutionSize := |x|;
      }
      var s := Solution(x, y);
      LogSinceDeliver(Fixed(), delivered, s, old(minimumSolutionSize), minimumSolutionSize);
      action := Deliver(s);
      assert delivered[..|old(delivered)|] == old(delivered);
    }

    /** The loop of `recurse` over the candidates `j` of the picked vertex `i`: searches with each pair `(i, j)` in
     *  turn, stopping at the first `Abort`. */
    method TryCandidates(vam: Vam, i: nat) returns (action: Action)
      requires Valid() && vam.Valid() && IsIsomorphism(g1, g2, equivalence, x, y)
      requires CandidatesSound(g1, g2, equivalence, vam.rows, x, y, vNotX)
      requires i in vNotX
      modifies this
      ensures Valid() && Fixed() == old(Fixed()) && w == old(w)
      ensures action == Continue ==> x == old(x) && y == old(y) && v == old(v) && vNotX == old(vNotX)
      ensures old(delivered) <= delivered
      ensures LogSince(Fixed(), delivered, |old(delivered)|, old(minimumSolutionSize), minimumSolutionSize)
      ensures action == Abort <==> Aborted(Fixed(), delivered, |old(delivered)|)
      decreases vNotX, 1
    {
      var row := vam.Get(i);
      ghost var x0, y0, v0, vNotX0 := x, y, v, vNotX;
      LogSinceEmpty(Fixed(), delivered, minimumSolutionSize);
      for k := 0 to |row|
        invariant Valid() && Fixed() == old(Fixed()) && w == old(w)
        invariant x == x0 && y == y0 && v == v0 && vNotX == vNotX0
        invariant old(delivered) <= delivered
        invariant LogSince(Fixed(), delivered, |old(delivered)|, old(minimumSolutionSize), minimumSolutionSize)
        invariant !Aborted(Fixed(), delivered, |old(delivered)|)
      {
        ghost var log1, min1 := delivered, minimumSolutionSize;
        action := TryPair(vam, i, row[k]);
        LogSinceCompose(Fixed(), log1, delivered, |old(delivered)|, old(minimumSolutionSize), min1, minimumSolutionSize);
        if action == Abort {
          return Abort;
        }
        NotAbortedCompose(Fixed(), log1, delivered, |old(delivered)|);
      }
      return Continue;
    }

    /** One step of that loop: extends the solution by `(i, j)`, refines the VAM for it, searches on, and retracts
     *  the pair unless the search was stopped. */
    method TryPair(vam: Vam, i: nat, j: nat) returns (action: Action)
      requires Valid() && vam.Valid() && IsIsomorphism(g1, g2, equivalence, x, y)
      requires CandidatesSound(g1, g2, equivalence, vam.rows, x, y, vNotX)
      requires i in vNotX && j in vam.Get(i)
      modifies this
      ensures Valid() && Fixed() == old(Fixed()) && w == old(w)
      ensures action == Continue ==> x == old(x) && y == old(y) && v == old(v) && vNotX == old(vNotX)
      ensures old(delivered) <= delivered
      ensures LogSince(Fixed(), delivered, |old(delivered)|, old(minimumSolutionSize), minimumSolutionSize)
      ensures action == Abort <==> Aborted(Fixed(), delivered, |old(delivered)|)
      decreases vNotX, 0
    {
      ghost var x0, y0, vNotX0 := x, y, vNotX;
      assert Compatible(g1, g2, equivalence, x, y, i, j);
      ExtendIsomorphism(g1, g2, equivalence, x, y, i, j);
      ExtendSolution(i, j);
      var refined := new Vam();
      Refine(vam, refined);
      RefinePreservesSoundness(g1, g2, equivalence, vam.rows, refined.rows, x0, y0, vNotX0, i, j);
      action := Recurse(refined);
      if action == Continue {
        RetractSolution();
      }
    }

    /** The second half of `recurse` when finding common subgraphs: searches once more with vertex `i` removed from
     *  the available vertices, then puts it back unless the search was stopped. */
    method TryWithout(vam: Vam, i: nat) returns (action: Action)
      requires Valid() && vam.Valid() && IsIsomorphism(g1, g2, equivalence, x, y)
      requires CandidatesSound(g1, g2, equivalence, vam.rows, x, y, vNotX)
      requires i in vNotX
      modifies this
      ensures Valid() && Fixed() == old(Fixed()) && w == old(w)
      ensures action == Continue ==> x == old(x) && y == old(y) && v == old(v) && vNotX == old(vNotX)
      ensures old(delivered) <= delivered
      ensures LogSince(Fixed(), delivered, |old(delivered)|, old(minimumSolutionSize), minimumSolutionSize)
      ensures action == Abort <==> Aborted(Fixed(), delivered, |old(delivered)|)
      decreases vNotX, 0
    {
      ghost var v0, vNotX0 := v, vNotX;
      v := v - {i};
      vNotX := vNotX - {i};
      action := Recurse(vam);
      if action == Continue {
        v := v + {i};
        vNotX := vNotX + {i};
        assert v == v0 && vNotX == vNotX0;
      }
    }
  }

  predicate Ascending(s: seq<nat>) {
    forall k, l :: 0 <= k < l < |s| ==> s[k] < s[l]
  }
}
