/** The work-lists and vertex sets of the graph algorithms are sets of vertex ID numbers that are visited in
 *  ascending order: the first value of a set is its least member. */
module DenseIntegerSets {

  /** The first value of a non-empty set: its least member. */
  method First(s: set<nat>) returns (r: nat)
    requires s != {}
    ensures r in s && forall e :: e in s ==> r <= e
  {
    ghost var some :| some in s;
    r := 0;
    while r !in s
      invariant r <= some
      invariant forall e :: e in s ==> r <= e
      decreases some - r
    {
      r := r + 1;
    }
  }
}
