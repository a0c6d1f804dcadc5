# Sawyer graph algorithms and small containers, modelled in Dafny

This project models part of the Sawyer C++ support library:

- the graph algorithms of `Sawyer/GraphAlgorithm.h`:
  - the connectivity tests `graphIsConnected` and `graphFindConnectedComponents`;
  - the common-subgraph-isomorphism (CSI) solver `CommonSubgraphIsomorphism`, including its vertex availability map (VAM);
  - the solver's two ready-made solution processors and its four wrapper functions;
- the callback list `Callbacks` and `TemporaryCallback` (`Sawyer/Callbacks.h`);
- the LIFO container `Stack` (`Sawyer/Stack.h`);
- the `Result` sum type (`Sawyer/Result.h`);
- the C lexer's `Token` (`Sawyer/Clexer.h`).

Graphs are values. A `Graph` has vertices `0 .. nVertices-1` and a list of directed edges. An edge's ID is its position in the list. Both graphs of a CSI problem are read only.

The CSI solver is a `class Solver` whose fields are the solver's members:
- the available vertex sets `v`, `w` and `vNotX`;
- the parallel solution vectors `x` and `y`;
- the four settings.

The VAM is a `class Vam` holding its ragged rows.

The search (`recurse`) is one group of mutually recursive methods. Each of them is proved to:
- hand the processor only isomorphisms of valid size;
- stop exactly when the processor answers `CSI_ABORT`;
- otherwise restore the partial solution and the available-vertex sets as it found them.

Its loops (`isSolutionPossible`, `pickVertex`, `initializeVam`, `refine`, `findEdges`) are methods with invariants. Each is proved against a specification function:
- `NonEmptyRows`, for the feasibility count;
- `EdgesBetween`, for the edge lists;
- `Admissible` and `EdgesSuitable`, for the vertex-pair tests;
- `RefineRow`, for refinement.

The user's solution processor is a function of the solutions it has already been handed and the new one. It returns `Continue` or `Abort`. The solver records every solution it delivers in `delivered`. The predicate `LogSince` states what a search delivered, and `Aborted` whether the processor stopped it.

`Callbacks` and `Stack` are classes:
- a `Callbacks` holds the list as a `seq`;
- a `Stack` holds the items bottom first, and `Contents()` gives them top first.

`Result` and `Token` are datatypes with pure functions. A C++ exception thrown by `expect`/`unwrap` becomes the `Thrown` case of an `Outcome`.

Where the description of `isSolutionPossible` and the code differ, the model follows the code. The code answers "possible" only from inside its loop, right after it counts a vertex with a non-empty row. So when no available vertex has candidates, the answer is "not possible", even if `x` alone already reaches the threshold. `Solver.IsSolutionPossible` states exactly this.

## Model

| member | source | states |
|---|---|---|
| DenseIntegerSets.First | Sawyer/GraphAlgorithm.h:137 | the value taken from a non-empty worklist is in it and is its least element |
| GraphConnectivity.InsertUnseenNeighbours | Sawyer/GraphAlgorithm.h:145-153 | the worklist grows by exactly the not-yet-skipped ends of the vertex's out- and in-edges, each linked to the vertex |
| GraphConnectivity.IsConnected | Sawyer/GraphAlgorithm.h:128-155 | true exactly when the graph is empty or every vertex is reachable from vertex 0 along edges taken in either direction |
| GraphConnectivity.LabelVertex | Sawyer/GraphAlgorithm.h:182-196 | one pass of the work-list loop keeps the loop invariant `LabelInv` (labels stay reachable from the root, earlier labels stay, differing edge ends are still queued) and either labels a vertex or shortens the list |
| GraphConnectivity.LabelComponent | Sawyer/GraphAlgorithm.h:178-197 | labels the root with the new component number, keeps every earlier label, and labels only vertices reachable from the root; both ends of each edge still carry the same label |
| GraphConnectivity.FindConnectedComponents | Sawyer/GraphAlgorithm.h:168-201 | one label in `0 .. n-1` per vertex; two vertices share a label exactly when each is reachable from the other; every label up to the returned count is used |
| Graphs.ReachableSymmetric | Sawyer/GraphAlgorithm.h:157-166 | reachability ignores edge direction, so it is symmetric |
| Graphs.ReachableTrans | Sawyer/GraphAlgorithm.h:157-166 | reachability is transitive |
| Graphs.ReachableKeepsLabel | Sawyer/GraphAlgorithm.h:168-201 | a labelling that agrees on the ends of every edge agrees on any two vertices that are reachable from each other |
| Graphs.EdgesBetweenMembers | Sawyer/GraphAlgorithm.h:757-764 | the edges from `a` to `b` are listed in ascending ID order, and all of them are listed |
| CommonSubgraphIsomorphism.FindEdges | Sawyer/GraphAlgorithm.h:757-764 | appends to the given list the IDs of exactly the edges from source to target, in ID order |
| CsiSpec.DefaultEquivalenceIsStructural | Sawyer/GraphAlgorithm.h:253-282 | `DefaultEquivalence` (its `mu` and `nu` accept everything): with them, a vertex pair is admissible exactly when the self-loop counts agree, and a pair may extend a solution exactly when the edge counts agree in both directions |
| CsiSpec.ExtendIsomorphism | Sawyer/GraphAlgorithm.h:824-833 | appending a pair compatible with every pair of an isomorphism gives an isomorphism |
| CsiSpec.IsomorphismPreservesEdgeCounts | Sawyer/GraphAlgorithm.h:769-793 | in an isomorphism, corresponding vertex pairs have equal edge counts in each direction (self-loops included), and each pair satisfies `mu` |
| CsiSpec.RefineRowMembers | Sawyer/GraphAlgorithm.h:796-806 | a refined row keeps exactly the candidates other than `y.back()` whose edges suit those of `i` |
| CsiSpec.RefineRowIsSubsequence | Sawyer/GraphAlgorithm.h:795-806 | a refined row is a subsequence of its parent row: "a subset of the specified VAM", with the order kept |
| CsiSpec.RefinePreservesSoundness | Sawyer/GraphAlgorithm.h:796-806 | if every candidate of the old VAM was compatible with the old solution, every candidate of the refined VAM is compatible with the extended solution |
| CsiVam.Vam.constructor | Sawyer/GraphAlgorithm.h:410-415 | a new VAM has no rows and no row started |
| CsiVam.Vam.StartNewRow | Sawyer/GraphAlgorithm.h:443-460 | starts a row that was not started before and makes it the last one started; no row's contents change |
| CsiVam.Vam.Push | Sawyer/GraphAlgorithm.h:463-481 | appends a candidate to the last row started and to no other row |
| CsiVam.Vam.Size | Sawyer/GraphAlgorithm.h:484-490 | the length of the row, 0 for a row never started |
| CsiVam.Vam.Get | Sawyer/GraphAlgorithm.h:495-505 | the row's candidates, empty for a row never started |
| CommonSubgraphIsomorphism.Solver.constructor | Sawyer/GraphAlgorithm.h:522-527 | empty vertex sets and solution; minimum 1, maximum `size_t(-1)`, not monotonic, finding common subgraphs |
| CommonSubgraphIsomorphism.Solver.Run | Sawyer/GraphAlgorithm.h:641-645 | every solution delivered is an isomorphism of valid size; the processor continued after all but possibly the last; a monotonic run delivers non-decreasing sizes; if the processor did not stop it, the run ends with every vertex available and an empty solution |
| CommonSubgraphIsomorphism.Solver.Reset | Sawyer/GraphAlgorithm.h:651-657 | every vertex of both graphs is available and the partial solution is empty |
| CommonSubgraphIsomorphism.Solver.InitializeVam | Sawyer/GraphAlgorithm.h:673-691 | row `i` of each available `i` lists, in ascending order, exactly the available `j` with equal self-loop counts, `mu(i, j)` and `nu` on the self-loops; other rows are empty |
| CommonSubgraphIsomorphism.Solver.FillRow | Sawyer/GraphAlgorithm.h:678-689 | fills the row just started with the admissible vertices of `g2`, ascending; other rows are unchanged |
| CommonSubgraphIsomorphism.Solver.IsSolutionPossible | Sawyer/GraphAlgorithm.h:699-712 | false once `x` is at the maximum (common subgraphs); otherwise true exactly when some available vertex has candidates and `x` plus the count of such vertices reaches the threshold |
| CommonSubgraphIsomorphism.Solver.PickVertex | Sawyer/GraphAlgorithm.h:717-731 | an available vertex with the shortest non-empty row, the least such vertex on a tie |
| CommonSubgraphIsomorphism.Solver.ExtendSolution | Sawyer/GraphAlgorithm.h:734-742 | appends `i` to `x` and `j` to `y`, and removes `i` from `vNotX` |
| CommonSubgraphIsomorphism.Solver.RetractSolution | Sawyer/GraphAlgorithm.h:745-753 | removes the last pair and gives its `g1` vertex back to `vNotX` |
| CommonSubgraphIsomorphism.Solver.ExtendThenRetract | Sawyer/GraphAlgorithm.h:734-753 | retracting right after extending restores the partial solution and `vNotX` |
| CommonSubgraphIsomorphism.Solver.EdgesAreSuitable | Sawyer/GraphAlgorithm.h:769-793 | equal edge counts between `i` and `iUnused` and between `j` and `jUnused` in each direction, and `nu` accepts the edges when there are any |
| CommonSubgraphIsomorphism.Solver.Refine | Sawyer/GraphAlgorithm.h:796-806 | every row of the refined VAM is the old row filtered by `RefineRow` for the last pair, and rows of unavailable vertices are empty |
| CommonSubgraphIsomorphism.Solver.RefineRowInto | Sawyer/GraphAlgorithm.h:800-804 | fills one refined row with the old row's candidates that `RefineRow` keeps |
| CommonSubgraphIsomorphism.Solver.IsSolutionValidSize | Sawyer/GraphAlgorithm.h:808-815 | between the minimum and the maximum when finding common subgraphs, otherwise exactly the size of `g1`; this is the size condition every delivered solution meets |
| CommonSubgraphIsomorphism.Solver.Deliver | Sawyer/GraphAlgorithm.h:845-849 | hands the current solution to the processor, with what it was handed before, and records it |
| CommonSubgraphIsomorphism.Solver.Report | Sawyer/GraphAlgorithm.h:845-851 | a monotonic search raises the minimum to `|x|`; the solution is delivered, and the answer is `Abort` exactly when the processor stopped the search |
| CommonSubgraphIsomorphism.Solver.Recurse | Sawyer/GraphAlgorithm.h:822-853 | from a sound VAM and an isomorphism: every solution delivered is an isomorphism whose size is valid for the minimum of its moment; the processor continued after all but the last; `Abort` exactly when the processor stopped the search; on `Continue`, `x`, `y`, `v` and `vNotX` are restored |
| CommonSubgraphIsomorphism.Solver.Extend | Sawyer/GraphAlgorithm.h:824-844 | the branch taken while a solution is still possible: trying every candidate of the picked vertex, then (for common subgraphs, unless stopped) searching without it, keeps the same guarantees as `Recurse` |
| CommonSubgraphIsomorphism.Solver.TryCandidates | Sawyer/GraphAlgorithm.h:826-834 | the loop over the candidates of the chosen vertex keeps the same guarantees as `Recurse` |
| CommonSubgraphIsomorphism.Solver.TryPair | Sawyer/GraphAlgorithm.h:827-833 | extending by one candidate pair, refining and recursing keeps the same guarantees, and restores the solution on `Continue` |
| CommonSubgraphIsomorphism.Solver.TryWithout | Sawyer/GraphAlgorithm.h:835-844 | searching with the chosen vertex unavailable keeps the same guarantees, and makes it available again on `Continue` |
| CommonSubgraphIsomorphism.LogSinceCompose | Sawyer/GraphAlgorithm.h:822-853 | a search not stopped by the processor, followed by another search, together meet the guarantees of one search |
| CommonSubgraphIsomorphism.NotAbortedCompose | Sawyer/GraphAlgorithm.h:836-844 | two successive searches that were not stopped make a search that was not stopped |
| CommonSubgraphIsomorphism.LogSinceDeliver | Sawyer/GraphAlgorithm.h:845-851 | delivering one isomorphism of valid size is a search on its own |
| CommonSubgraphIsomorphism.AllVertices | Sawyer/GraphAlgorithm.h:651-657 | `insertAll` makes the set of exactly the IDs below the vertex count |
| CommonSubgraphIsomorphism.AllVerticesSize | Sawyer/GraphAlgorithm.h:651-657 | the set `insertAll` makes has as many IDs as the graph has vertices |
| CommonSubgraphIsomorphism.DistinctWithin | Sawyer/GraphAlgorithm.h:734-742 | a solution vector never repeats a vertex, so it is no longer than the set its vertices come from |
| CommonSubgraphIsomorphism.DistinctBelow | Sawyer/GraphAlgorithm.h:734-742 | a vector of distinct vertex IDs of a graph has at most as many entries as the graph has vertices |
| CommonSubgraphIsomorphism.IsomorphismBound | Sawyer/GraphAlgorithm.h:939-941 | no isomorphism selects more vertices than either graph has, so no subgraph of a smaller graph is isomorphic to a larger one |
| CsiPresets.FirstIsomorphicSubgraph.Call | Sawyer/GraphAlgorithm.h:895-899 | remembers the solution and answers `CSI_ABORT` |
| CsiPresets.AbortingRunDeliversAtMostOne | Sawyer/GraphAlgorithm.h:892-904 | `AlwaysAbort`, the decisions of that processor: a search run with them delivers at most one solution and is stopped by the processor at it |
| CsiPresets.LastOfAbortingRun | Sawyer/GraphAlgorithm.h:901-903 | `LastSolution`, what that processor holds after being handed a log: after a run it is the first solution found, or the empty pair when there was none |
| CsiPresets.MaximumIsomorphicSubgraphs.Call | Sawyer/GraphAlgorithm.h:973-979 | drops the solutions kept so far when the new one is larger, appends the new one, and answers `CSI_CONTINUE` |
| CsiPresets.ContinuingRunNeverAborts | Sawyer/GraphAlgorithm.h:970-984 | `AlwaysContinue`, the decisions of that processor: a search run with them continues after every solution and is never stopped by the processor |
| CsiPresets.WithSizeMembers | Sawyer/GraphAlgorithm.h:970-984 | the solutions of a given size, taken from a log, are exactly its members of that size |
| CsiPresets.KeptLargest | Sawyer/GraphAlgorithm.h:975-977 | fed a log of non-decreasing sizes, that processor ends holding exactly the solutions of the last size, in order |
| CsiPresets.RunSolver | Sawyer/GraphAlgorithm.h:916-919 | configuring a new solver and running it delivers a log meeting the guarantees of one whole search |
| CsiPresets.FindCommonIsomorphicSubgraphs | Sawyer/GraphAlgorithm.h:876-887 | every solution handed to the processor is a common isomorphic subgraph of at least one vertex; the processor was answered for all but the last with `Continue` |
| CsiPresets.FindFirstCommonIsomorphicSubgraph | Sawyer/GraphAlgorithm.h:913-933 | returns either the empty pair of vectors or a common isomorphic subgraph of exactly `minimumSize` vertices; the empty pair when `minimumSize` exceeds the size of either graph |
| CsiPresets.FindIsomorphicSubgraphs | Sawyer/GraphAlgorithm.h:953-965 | every solution maps all of `g1` isomorphically into `g2`; the processor was answered `Continue` for all but the last; no solution at all when `g1` has more vertices than `g2` |
| CsiPresets.FindMaximumCommonIsomorphicSubgraphs | Sawyer/GraphAlgorithm.h:1006-1023 | returns, in order, exactly the delivered solutions of the last (largest) size; all are isomorphisms, and none of the delivered solutions is larger; the delivered log is that of one monotonic common-subgraph search from minimum 1 |
| CallbackLists.FirstIndex | Sawyer/Callbacks.h:42-50 | the position of the first occurrence, or the length when there is none |
| CallbackLists.LastIndex | Sawyer/Callbacks.h:52-61 | the position of the last occurrence, or -1 when there is none |
| CallbackLists.RemoveAt | Sawyer/Callbacks.h:42-61 | removes exactly the element at a valid position and leaves the list alone otherwise |
| CallbackLists.WithoutMembers | Sawyer/Callbacks.h:63-73 | after erasing every match, the list holds exactly the other callbacks |
| CallbackLists.WithoutConcat | Sawyer/Callbacks.h:63-73 | erasing matches distributes over concatenation |
| CallbackLists.WithoutIdempotent | Sawyer/Callbacks.h:63-73 | erasing all matches twice is the same as once |
| CallbackLists.WithoutUnchanged | Sawyer/Callbacks.h:63-73 | erasing a callback that is absent changes nothing |
| CallbackLists.ChainConcat | Sawyer/Callbacks.h:97-109 | applying a concatenated list threads the chained value from the first part into the second |
| CallbackLists.EmptyListIsInert | Sawyer/Callbacks.h:18-20 | `Callbacks.IsEmpty` (`isEmpty`): an empty list passes the chained value through `apply`, finds no callback and erases nothing; a non-empty one finds its front callback at position 0 and shrinks when it is erased |
| CallbackLists.WithoutShorter | Sawyer/Callbacks.h:63-73 | erasing matches never lengthens the list, and shortens it when the callback is present |
| CallbackLists.Callbacks.Append | Sawyer/Callbacks.h:22-25 | adds the callback at the end and returns the same list |
| CallbackLists.Callbacks.AppendAll | Sawyer/Callbacks.h:27-30 | adds the other list's callbacks at the end, in order |
| CallbackLists.Callbacks.Prepend | Sawyer/Callbacks.h:32-35 | adds the callback at the front |
| CallbackLists.Callbacks.PrependAll | Sawyer/Callbacks.h:37-40 | adds the other list's callbacks at the front, in order |
| CallbackLists.Callbacks.EraseFirst | Sawyer/Callbacks.h:42-50 | removes the first occurrence only, if there is one |
| CallbackLists.Callbacks.EraseLast | Sawyer/Callbacks.h:52-61 | removes the last occurrence only, if there is one |
| CallbackLists.Callbacks.EraseMatching | Sawyer/Callbacks.h:63-73 | removes every occurrence and keeps the order of the rest |
| CallbackLists.Callbacks.Apply | Sawyer/Callbacks.h:97-109 | calls the callbacks front to back, each given the previous one's result; returns `chained` for an empty list |
| CallbackLists.FirstIndexUnique | Sawyer/Callbacks.h:42-50 | a position with no match before it and a match at it is the first occurrence |
| CallbackLists.LastIndexUnique | Sawyer/Callbacks.h:52-61 | a position with no match after it and a match at it is the last occurrence |
| CallbackLists.EraseLastUndoesAppend | Sawyer/Callbacks.h:112-125 | erasing the last occurrence of a callback just appended gives back the original list |
| CallbackLists.TemporaryCallback.constructor | Sawyer/Callbacks.h:117-120 | appends the callback to the list it registers with |
| CallbackLists.TemporaryCallback.Destroy | Sawyer/Callbacks.h:122-124 | erases the last occurrence of its callback from that list |
| CallbackLists.TemporaryCallbackRestores | Sawyer/Callbacks.h:112-125 | creating and then destroying a temporary callback leaves the list as it was |
| Stacks.ReversedAt | Sawyer/Stack.h:59-75 | position `i` from the top is position `n-1-i` from the bottom |
| Stacks.ReversedPush | Sawyer/Stack.h:82-85 | pushing at the bottom-first end puts the value in front of the top-first contents |
| Stacks.Stack.constructor | Sawyer/Stack.h:21-22 | a new stack is empty |
| Stacks.Stack.FromRange | Sawyer/Stack.h:24-29 | the range's items are pushed in order, so the last item of the range is the top |
| Stacks.Stack.Size | Sawyer/Stack.h:33-36 | the number of items |
| Stacks.Stack.IsEmpty | Sawyer/Stack.h:38-43 | true exactly when the size is 0 |
| Stacks.Stack.Top | Sawyer/Stack.h:45-57 | the most recently pushed item, for a non-empty stack |
| Stacks.Stack.Get | Sawyer/Stack.h:59-75 | the item `idx` places below the top; `get(0)` is the top |
| Stacks.Stack.Set | Sawyer/Stack.h:45-75 | writing through the reference `top()`/`get(idx)`/`operator[]` returns changes that one item, `get(idx)` then yields the new value, and the size and every other item stay |
| Stacks.Stack.Push | Sawyer/Stack.h:77-85 | the value becomes the top, above everything that was there, and the stack is returned |
| Stacks.Stack.Pop | Sawyer/Stack.h:87-95 | returns the old top and leaves the items that were below it |
| Stacks.Stack.PushThenPop | Sawyer/Stack.h:82-95 | popping right after a push returns the pushed value and restores the stack |
| Results.QueriesAgree | Sawyer/Result.h:281-337 | `IsOk` (`isOk`), `ToBool` (the boolean conversion) and `IsError` (`isError`) agree (`isError` is the opposite); `ok()` and `error()` hold a value exactly when the matching query is true; `unwrap` and `unwrapError` succeed exactly then, with the value `contains` recognises |
| Results.OkOf | Sawyer/Result.h:297-303 | the okay value when there is one, otherwise nothing |
| Results.ErrorOf | Sawyer/Result.h:308-314 | the error value when there is one, otherwise nothing |
| Results.Expect | Sawyer/Result.h:319-325 | the okay value, or a thrown error carrying the caller's message |
| Results.Unwrap | Sawyer/Result.h:332-337 | the okay value, or a thrown error carrying "result is not okay" |
| Results.OrElse | Sawyer/Result.h:341-343 | the okay value, or the default for an error |
| Results.ExpectError | Sawyer/Result.h:377-383 | the error value, or a thrown error carrying the caller's message |
| Results.UnwrapError | Sawyer/Result.h:388-390 | the error value, or a thrown error carrying "result is not an error" |
| Results.And | Sawyer/Result.h:395-402 | the other result when this one is okay, otherwise this error |
| Results.Or | Sawyer/Result.h:407-414 | this okay value when there is one, otherwise the other result |
| Results.Contains | Sawyer/Result.h:417-420 | true exactly when okay with the given value |
| Results.ContainsError | Sawyer/Result.h:423-426 | true exactly when an error with the given value |
| Results.AssignTo | Sawyer/Result.h:464-472 | stores the okay value in the destination and reports true; an error leaves the destination alone and reports false |
| Results.AndOkIff | Sawyer/Result.h:395-402 | `and_` is okay exactly when both results are okay |
| Results.OrErrorIff | Sawyer/Result.h:407-414 | `or_` is an error exactly when both results are errors |
| Results.OrElseAgrees | Sawyer/Result.h:297-343 | `orElse` agrees with `ok()` and with a successful `unwrap` |
| Results.OkScenario | tests/Container/resultUnitTests.C:7-46 | the unit test's okay result: every query, accessor and combinator gives the tested answer |
| Results.ErrorScenario | tests/Container/resultUnitTests.C:48-124 | the unit test's error result: every query, accessor and combinator gives the tested answer |
| Clexer.DefaultTokenIsEmpty | Sawyer/Clexer.h:45 | `DefaultToken` (`Token()`, end of input at offset 0): it has size 0, covers no offset, and converts to false |
| Clexer.MakeToken | Sawyer/Clexer.h:47-51 | the token carries the given type and offsets, `prior <= begin <= end` |
| Clexer.Size | Sawyer/Clexer.h:69-71 | the token's length: `begin + size == end` |
| Clexer.Where | Sawyer/Clexer.h:73-75 | the interval covers exactly the offsets from `begin` to before `end`; it is empty exactly for an empty token |
| Clexer.BoolConversions | Sawyer/Clexer.h:77-83 | `Truthy` (`operator bool`) and `Not` (`operator!`) always disagree, and a token converts to false exactly when it has the default token's type, whatever its offsets |
| Clexer.WhereHoldsSize | Sawyer/Clexer.h:69-75 | a non-empty token's interval holds exactly `size()` offsets |

## Left out

- CommonSubgraphIsomorphism.Solver.Recurse: proves soundness, abort propagation and state restoration only. It does not prove completeness, that is, that every common isomorphic subgraph of valid size is delivered. The same holds for `Extend`, `TryCandidates`, `TryPair`, `TryWithout` and `Run`.
- CsiPresets.FindMaximumCommonIsomorphicSubgraphs: states that the result holds the largest solutions the search delivered. It does not prove that no larger common subgraph exists, which would need completeness.
- CsiPresets.FindFirstCommonIsomorphicSubgraph: does not prove that the empty result means no such subgraph exists. The reason is the same.
- CsiPresets.FindCommonIsomorphicSubgraphs: proves only that every solution handed to the processor is a common isomorphic subgraph of at least one vertex, and what the processor was answered. It does not prove completeness, that is, that every such subgraph is handed to the processor. The reason is the same as for `Recurse`.
- CsiPresets.FindIsomorphicSubgraphs: proves only that every solution handed to the processor maps all of `g1` isomorphically into `g2`, and that there is none when `g1` is larger than `g2`. It does not prove that all such subgraphs of `g2` are found. The reason is the same as for `Recurse`.
- The wrapper overloads without an equivalence predicate are the ones given `DefaultEquivalence()`. This holds for all four wrappers.
- The solution processor is a function of the solutions it was handed before. The C++ processor is a mutable object called with both graphs.
  - The two shipped processors are classes of their own.
  - Each wrapper runs the solver with that class's decisions, then replays the delivered solutions into a fresh object. This is equivalent, because the shipped processors decide without looking at their state.
- CommonSubgraphIsomorphism.Solver.Run: the settings (minimum, maximum, monotonic, common-subgraph mode) and the processor do not change during a run. The one exception is the monotonic raise of the minimum. Sawyer documents that the minimum, the maximum and the processor may be changed during the analysis, for example from inside the processor. That cannot happen here: the processor is a pure function with no access to the solver, and the `progress` hook is left out. Every search method ensures `Fixed() == old(Fixed())`.
- The `level` argument of `recurse` and the `progress` hook of the equivalence predicate are left out. They only report.
- The printing processor `CsiShowSolution` and the default processor of the constructor are left out: they do only I/O.
- Left out memory management:
  - the VAM's stack allocator (`VamAllocator`, `SAWYER_VAM_STACK_ALLOCATOR`);
  - `reserveRows` and `maxPlusOneOrZero`, which only pre-size storage;
  - the extra consistency checks (`SAWYER_VAM_EXTRA_CHECKS`).
- C++ assertions become preconditions:
  - `ASSERT_require` in `edgesAreSuitable`;
  - row bounds in the VAM;
  - the non-empty stack in `top`/`pop`;
  - `ASSERT_require(idx < size())` in the stack's `get`, which is the precondition of `Get` and `Set`;
  - `ASSERT_require(prior <= begin)` and `ASSERT_require(begin <= end)` in the `Token` constructor, which are the subset type `Token` and the precondition of `MakeToken`.

  `pickVertex`'s `ASSERT_require2` becomes the precondition that some available vertex has candidates. `Recurse` establishes it from the result of `isSolutionPossible`.
- `size_t` is unbounded `nat`, with no wrap-around. `maximumSolutionSize(-1)` is the constant `SIZE_MAX`. The `size_t(-1)` sentinels of `pickVertex` and `lastRowStarted_` are a "none yet" value. The component label `-1` (unseen) is `NOT_SEEN` in a `seq<int>`.
- The setters and getters of the solver settings are plain field reads and writes. The copy constructor and assignment operator are left out, because they assert they are never used.
- `Sawyer/DenseIntegerSet.h`, `Sawyer/Graph.h` and `Sawyer/IndexedList.h` are not part of this model. The model makes these assumptions about them:
  - a `DenseIntegerSet` is a `set<nat>` iterated in ascending order;
  - a graph's out- and in-edges are visited in edge-ID order;
  - an `IndexedList` is a `seq`.
- The other algorithms of `Sawyer/GraphAlgorithm.h` are left out: cycle detection and removal (`graphContainsCycle`, `graphBreakCycles`) and subgraph copying (`graphCopySubgraph`).
- `Results`: the `Ok`/`Error` wrapper classes, `orDefault`, `orThrow`, the `char[N]` specialisations, serialization and the `#if 0` code are left out. `operator*` is `unwrap`. Assignment of results is value assignment.
- `Clexer`: the `TokenStream` lexer and `toString(TokenType)` are left out. Token offsets are `nat`.
- `CallbackLists.Callbacks.Apply`: the `applyCallback` overloads dispatch on raw pointers, shared pointers and references. The model calls one interpretation function `call` instead. The `const`/non-`const` `apply` overloads are one method.
- `CallbackLists.Callbacks.PrependAll`: the C++ `prepend(const Callbacks&)` is declared to return `Callback&`, and `eraseMatching` falls off its end without a `return`. Both are modelled as returning the list, as the sibling members do.
- `Stacks.Stack`: `top()`, `get()` and `operator[]` return references into the stack. Reading through them is `Top`/`Get`; writing through them is the method `Set`. A reference kept across a later `push` or `pop` is not modelled.
- `Sawyer/Stopwatch.h` and `tests/Tree/treeUnitTests.C` are not part of this model.
