/** The library's ready-made uses of the common-subgraph-isomorphism solver: the two solution processors it ships
 *  (`FirstIsomorphicSubgraph` and `MaximumIsomorphicSubgraphs`) and the four wrapper functions that configure a
 *  solver, run it and return what the processor collected. */
module CsiPresets {
  import opened Graphs
  import opened CsiSpec
  import opened CommonSubgraphIsomorphism

  /** The empty solution: what `FirstIsomorphicSubgraph` holds before it is called. */
  const NoSolution: Solution := Solution([], [])

  /** The solution a `FirstIsomorphicSubgraph` holds after being handed `log`: the last one, if any. */
  function LastSolution(log: seq<Solution>): (s: Solution)
    ensures log == [] ==> s == NoSolution
    ensures log != [] ==> s == log[|log| - 1]
  {
    if log == [] then NoSolution else log[|log| - 1]
  }

  /** A processor that stops the search at the first solution. */
  class FirstIsomorphicSubgraph {
    var solution: Solution

    constructor ()
      ensures solution == NoSolution
    {
      solution := NoSolution;
    }

    /** Remembers the solution and stops the search. */
    method Call(x: seq<nat>, y: seq<nat>) returns (action: Action)
      modifies this
      ensures solution == Solution(x, y) && action == Abort
    {
      solution := Solution(x, y);
      action := Abort;
    }
  }

  /** The decisions of `FirstIsomorphicSubgraph`, as a function of what it was handed. */
  function AlwaysAbort(): (p: Processor)
    ensures forall h, s :: p(h, s) == Abort
  {
    (h: seq<Solution>, s: Solution) => Abort
  }

  /** The decisions of `MaximumIsomorphicSubgraphs`, as a function of what it was handed. */
  function AlwaysContinue(): (p: Processor)
    ensures forall h, s :: p(h, s) == Continue
  {
    (h: seq<Solution>, s: Solution) => Continue
  }

  /** A search run with the decisions of `FirstIsomorphicSubgraph` delivers at most one solution, and stops at it. */
  lemma AbortingRunDeliversAtMostOne(p: Problem, log: seq<Solution>, n0: nat, min0: nat, min1: nat)
    requires p.processor == AlwaysAbort() && LogSince(p, log, n0, min0, min1)
    ensures |log| <= n0 + 1
    ensures |log| > n0 ==> Aborted(p, log, n0)
  {
    assert |log| > n0 + 1 ==> Decision(p.processor, log, n0) == Continue;
  }

  /** So a `FirstIsomorphicSubgraph` handed what such a search delivered holds the first solution found, if any. */
  lemma LastOfAbortingRun(p: Problem, log: seq<Solution>, min0: nat, min1: nat)
    requires p.processor == AlwaysAbort() && LogSince(p, log, 0, min0, min1)
    ensures LastSolution(log) == if log == [] then NoSolution else log[0]
  {
    AbortingRunDeliversAtMostOne(p, log, 0, min0, min1);
  }

  /** A search run with the decisions of `MaximumIsomorphicSubgraphs` is never stopped by its processor. */
  lemma ContinuingRunNeverAborts(p: Problem, log: seq<Solution>, n0: nat)
    requires p.processor == AlwaysContinue()
    ensures forall k :: n0 <= k < |log| ==> Decision(p.processor, log, k) == Continue
    ensures !Aborted(p, log, n0)
  {
  }

  /** The solutions of `log` of size `n`, in order. */
  function WithSize(log: seq<Solution>, n: nat): seq<Solution> {
    if log == [] then []
    else WithSize(log[..|log| - 1], n) + (if |log[|log| - 1].x| == n then [log[|log| - 1]] else [])
  }

  lemma {:induction false} WithSizeMembers(log: seq<Solution>, n: nat)
    ensures forall s :: s in WithSize(log, n) <==> s in log && |s.x| == n
  {
    if log != [] {
      WithSizeMembers(log[..|log| - 1], n);
      assert log == log[..|log| - 1] + [log[|log| - 1]];
    }
  }

  lemma {:induction false} WithSizeNone(log: seq<Solution>, n: nat)
    requires forall s :: s in log ==> |s.x| != n
    ensures WithSize(log, n) == []
  {
    if log != [] {
      assert log[|log| - 1] in log;
      assert forall s :: s in log[..|log| - 1] ==> s in log;
      WithSizeNone(log[..|log| - 1], n);
    }
  }

  /** What `MaximumIsomorphicSubgraphs` does with one more solution: drops what it holds when the new solution is
   *  larger than the first of them, then appends it. */
  function KeepStep(kept: seq<Solution>, s: Solution): seq<Solution> {
    if kept != [] && |s.x| > |kept[0].x| then [s] else kept + [s]
  }

  /** What `MaximumIsomorphicSubgraphs` holds after being handed `log`. */
  function KeptSolutions(log: seq<Solution>): seq<Solution> {
    if log == [] then [] else KeepStep(KeptSolutions(log[..|log| - 1]), log[|log| - 1])
  }

  /** The sizes of the solutions in `log` never decrease. */
  ghost predicate NonDecreasing(log: seq<Solution>) {
    forall k, l :: 0 <= k <= l < |log| ==> |log[k].x| <= |log[l].x|
  }

  lemma NonDecreasingPrefix(log: seq<Solution>, n: nat)
    requires NonDecreasing(log) && n <= |log|
    ensures NonDecreasing(log[..n])
  {
    forall k, l | 0 <= k <= l < n ensures |log[..n][k].x| <= |log[..n][l].x| {
      assert log[..n][k] == log[k] && log[..n][l] == log[l];
    }
  }

  /** Handed solutions of non-decreasing size, `MaximumIsomorphicSubgraphs` ends up holding exactly those of the
   *  largest size, in the order they were handed. */
  lemma {:induction false} KeptLargest(log: seq<Solution>)
    requires log != [] && NonDecreasing(log)
    ensures KeptSolutions(log) == WithSize(log, |log[|log| - 1].x|)
  {
    var front, s := log[..|log| - 1], log[|log| - 1];
    if front == [] {
      assert WithSize(log, |s.x|) == WithSize(front, |s.x|) + [s];
    } else {
      NonDecreasingPrefix(log, |log| - 1);
      KeptLargest(front);
      KeptLargestStep(log);
    }
  }

  /** The step of `KeptLargest`: what holds for all but the last solution extends to the last. */
  lemma KeptLargestStep(log: seq<Solution>)
    requires |log| >= 2 && NonDecreasing(log)
    requires KeptSolutions(log[..|log| - 1]) == WithSize(log[..|log| - 1], |log[|log| - 2].x|)
    ensures KeptSolutions(log) == WithSize(log, |log[|log| - 1].x|)
  {
    var front, s := log[..|log| - 1], log[|log| - 1];
    var n, m := |s.x|, |log[|log| - 2].x|;
    assert front[|front| - 1] == log[|log| - 2];
    WithSizeMembers(front, m);
    assert front[|front| - 1] in WithSize(front, m);
    var kept := KeptSolutions(front);
    assert kept[0] in kept;
    if n > m {
      forall t | t in front ensures |t.x| != n {
        var k :| 0 <= k < |front| && front[k] == t;
        assert log[k] == t;
      }
      WithSizeNone(front, n);
    }
  }

  /** A processor that collects the largest solutions it is handed. */
  class MaximumIsomorphicSubgraphs {
    var solutions: seq<Solution>

    constructor ()
      ensures solutions == []
    {
      solutions := [];
    }

    /** Drops the collected solutions when the new one is larger than them, keeps the new one, and lets the search
     *  go on. */
    method Call(x: seq<nat>, y: seq<nat>) returns (action: Action)
      modifies this
      ensures solutions == KeepStep(old(solutions), Solution(x, y)) && action == Continue
    {
      if solutions != [] && |x| > |solutions[0].x| {
        solutions := [];
      }
      solutions := solutions + [Solution(x, y)];
      action := Continue;
    }
  }

  /** Runs a solver on `g1` and `g2` with the given settings and returns the solutions it handed to `processor`. */
  method RunSolver(g1: Graph, g2: Graph, processor: Processor, eq: Equivalence, minimum: nat, maximum: nat,
                   monotonic: bool, common: bool) returns (log: seq<Solution>)
    ensures LogSince(Problem(g1, g2, eq, processor, maximum, monotonic, common), log, 0, minimum,
                     if monotonic && log != [] then |log[|log| - 1].x| else minimum)
  {
    var csi := new Solver(g1, g2, processor, eq);
    csi.minimumSolutionSize := minimum;
    csi.maximumSolutionSize := maximum;
    csi.monotonicallyIncreasing := monotonic;
    csi.findingCommonSubgraphs := common;
    csi.Run();
    log := csi.delivered;
  }

  /** `findCommonIsomorphicSubgraphs`: every solution handed to the processor is a common isomorphic subgraph of at
   *  least one vertex, and the processor stopped the search at the last one at the earliest. */
  method FindCommonIsomorphicSubgraphs(g1: Graph, g2: Graph, processor: Processor, eq: Equivalence)
    returns (log: seq<Solution>)
    ensures forall k :: 0 <= k < |log| ==> IsIsomorphism(g1, g2, eq, log[k].x, log[k].y) && 1 <= |log[k].x|
    ensures forall k :: 0 <= k < |log| - 1 ==> processor(log[..k], log[k]) == Continue
  {
    log := RunSolver(g1, g2, processor, eq, 1, SIZE_MAX, false, true);
    forall k | 0 <= k < |log| - 1 ensures processor(log[..k], log[k]) == Continue {
      assert Decision(processor, log, k) == Continue;
    }
  }

  /** `findIsomorphicSubgraphs`: every solution handed to the processor maps all of `g1` into `g2`. */
  method FindIsomorphicSubgraphs(g1: Graph, g2: Graph, processor: Processor, eq: Equivalence)
    returns (log: seq<Solution>)
    ensures forall k :: 0 <= k < |log| ==> IsIsomorphism(g1, g2, eq, log[k].x, log[k].y) && |log[k].x| == g1.nVertices
    ensures forall k :: 0 <= k < |log| - 1 ==> processor(log[..k], log[k]) == Continue
    ensures g1.nVertices > g2.nVertices ==> log == []
  {
    log := RunSolver(g1, g2, processor, eq, 1, SIZE_MAX, false, false);
    forall k | 0 <= k < |log| - 1 ensures processor(log[..k], log[k]) == Continue {
      assert Decision(processor, log, k) == Continue;
    }
    if log != [] {
      IsomorphismBound(g1, g2, eq, log[0].x, log[0].y);
    }
  }

  /** `findFirstCommonIsomorphicSubgraph`: either the empty pair of vectors, when no common isomorphic subgraph of
   *  `minimumSize` vertices was found, or one such subgraph.  The model runs the search with the decisions of
   *  `FirstIsomorphicSubgraph` and then hands that processor the delivered solutions in order. */
  method FindFirstCommonIsomorphicSubgraph(g1: Graph, g2: Graph, minimumSize: nat, eq: Equivalence)
    returns (solution: Solution)
    ensures solution == NoSolution ||
            (IsIsomorphism(g1, g2, eq, solution.x, solution.y) && |solution.x| == minimumSize)
    ensures minimumSize > g1.nVertices || minimumSize > g2.nVertices ==> solution == NoSolution
  {
    var log := RunSolver(g1, g2, AlwaysAbort(), eq, minimumSize, minimumSize, false, true);
    LastOfAbortingRun(Problem(g1, g2, eq, AlwaysAbort(), minimumSize, false, true), log, minimumSize, minimumSize);
    var first := new FirstIsomorphicSubgraph();
    for k := 0 to |log|
      invariant first.solution == LastSolution(log[..k])
    {
      var _ := first.Call(log[k].x, log[k].y);
    }
    assert log[..|log|] == log;
    solution := first.solution;
    if log != [] {
      IsomorphismBound(g1, g2, eq, log[0].x, log[0].y);
    }
  }

  /** `findMaximumCommonIsomorphicSubgraphs`: the solutions of the largest size the monotonic search found, in the
   *  order it found them, all of them common isomorphic subgraphs of one size; `log` is everything the search
   *  delivered, none of it larger. */
  method FindMaximumCommonIsomorphicSubgraphs(g1: Graph, g2: Graph, eq: Equivalence)
    returns (solutions: seq<Solution>, ghost log: seq<Solution>)
    ensures log == [] ==> solutions == []
    ensures log != [] ==> solutions == WithSize(log, |log[|log| - 1].x|)
    ensures forall s :: s in solutions ==> IsIsomorphism(g1, g2, eq, s.x, s.y)
    ensures forall s, t :: s in solutions && t in log ==> |t.x| <= |s.x|
    ensures LogSince(Problem(g1, g2, eq, AlwaysContinue(), SIZE_MAX, true, true), log, 0, 1,
                     if log != [] then |log[|log| - 1].x| else 1)
  {
    var delivered := RunSolver(g1, g2, AlwaysContinue(), eq, 1, SIZE_MAX, true, true);
    log := delivered;
    var maximum := new MaximumIsomorphicSubgraphs();
    for k := 0 to |delivered|
      invariant maximum.solutions == KeptSolutions(delivered[..k])
    {
      assert delivered[..k + 1][..k] == delivered[..k];
      var _ := maximum.Call(delivered[k].x, delivered[k].y);
    }
    assert delivered[..|delivered|] == delivered;
    solutions := maximum.solutions;
    if log != [] {
      KeptLargest(log);
      WithSizeMembers(log, |log[|log| - 1].x|);
    }
  }
}
