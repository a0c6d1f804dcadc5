/** The vertex availability map (VAM) of the common-subgraph-isomorphism solver: a ragged array with one row per
 *  vertex `i` of the first graph, listing the vertices `j` of the second graph that `i` may still be paired with.
 *  Rows are started one at a time, each at most once, and only the most recently started row can grow. */
module CsiVam {
  import opened CsiSpec

  /** The vertices of `s` whose row has at least one candidate. */
  ghost function NonEmptyRows(rows: seq<seq<nat>>, s: set<nat>): set<nat> {
    set i | i in s && |RowOf(rows, i)| > 0
  }

  lemma NonEmptyRowsAdd(rows: seq<seq<nat>>, s: set<nat>, i: nat)
    requires i !in s
    ensures NonEmptyRows(rows, s + {i}) == if |RowOf(rows, i)| > 0 then NonEmptyRows(rows, s) + {i} else NonEmptyRows(rows, s)
    ensures i !in NonEmptyRows(rows, s)
  {
  }

  /** Moving vertex `i` from `remaining` to the vertices already seen adds one to the count of non-empty rows seen
   *  exactly when row `i` is non-empty. */
  lemma NonEmptyRowsStep(rows: seq<seq<nat>>, all: set<nat>, remaining: set<nat>, i: nat)
    requires i in remaining && remaining <= all
    ensures |NonEmptyRows(rows, all - (remaining - {i}))| ==
            |NonEmptyRows(rows, all - remaining)| + if |RowOf(rows, i)| > 0 then 1 else 0
  {
    assert all - (remaining - {i}) == (all - remaining) + {i};
    NonEmptyRowsAdd(rows, all - remaining, i);
  }

  lemma NonEmptyRowsSubset(rows: seq<seq<nat>>, s: set<nat>, t: set<nat>)
    requires s <= t
    ensures |NonEmptyRows(rows, s)| <= |NonEmptyRows(rows, t)|
  {
    var a, b := NonEmptyRows(rows, s), NonEmptyRows(rows, t);
    assert b == a + (b - a);
  }

  class Vam {
    var rows: seq<seq<nat>>
    /** Which rows have been started (Sawyer tracks this by a non-null row pointer). */
    ghost var started: seq<bool>
    /** The most recently started row, or -1 before any (`size_t(-1)` in Sawyer). */
    var lastRowStarted: int

    ghost predicate Valid()
      reads this
    {
      && |started| == |rows|
      && -1 <= lastRowStarted < |rows|
      && (lastRowStarted >= 0 ==> started[lastRowStarted])
      && (forall i :: 0 <= i < |rows| && !started[i] ==> rows[i] == [])
    }

    ghost predicate Started(i: nat)
      reads this
    {
      i < |started| && started[i]
    }

    /** The candidates of row `i`, empty for a row that was never started or never pushed to. */
    function Get(i: nat): (r: seq<nat>)
      reads this
      ensures Valid() && !Started(i) ==> r == []
    {
      RowOf(rows, i)
    }

    /** The number of candidates of row `i`. */
    function Size(i: nat): (r: nat)
      reads this
      ensures r == |Get(i)|
      ensures Valid() && !Started(i) ==> r == 0
    {
      if i < |rows| then |rows[i]| else 0
    }

    constructor ()
      ensures Valid() && lastRowStarted == -1 && rows == []
      ensures forall i :: !Started(i) && Get(i) == []
    {
      rows := [];
      started := [];
      lastRowStarted := -1;
    }

    /** Starts row `i`, growing the table when `i` is beyond its end.  `maxColumns` is only a capacity hint. */
    method StartNewRow(i: nat, maxColumns: nat)
      requires Valid() && !Started(i)
      modifies this
      ensures Valid() && Started(i) && lastRowStarted == i
      ensures forall k :: k != i ==> (Started(k) <==> old(Started(k)))
      ensures forall k :: Get(k) == old(Get(k))
    {
      if i >= |rows| {
        rows := rows + seq(i + 1 - |rows|, _ => []);
        started := started + seq(i + 1 - |started|, _ => false);
      }
      started := started[i := true];
      lastRowStarted := i;
    }

    /** Appends candidate `x` to row `i`, which must be the row started last. */
    method Push(i: nat, x: nat)
      requires Valid() && i == lastRowStarted && i < |rows|
      modifies this`rows
      ensures Valid()
      ensures Get(i) == old(Get(i)) + [x]
      ensures forall k :: k != i ==> Get(k) == old(Get(k))
    {
      rows := rows[i := rows[i] + [x]];
    }
  }
}
