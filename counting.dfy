/** Counting occurrences of a value in a sequence.  Used by the graph traversals to measure how many vertices are
 *  still unseen, which is what makes their work-list loops terminate. */
module Counting {

  /** Number of positions of `s` that hold `x`, built on prefixes so that loop invariants over `s[..k]` unfold. */
  function Count<T(==)>(s: seq<T>, x: T): (r: nat)
    ensures r <= |s|
  {
    if |s| == 0 then 0 else Count(s[..|s| - 1], x) + (if s[|s| - 1] == x then 1 else 0)
  }

  /** Every position holds `x` exactly when the count is the full length. */
  lemma {:induction false} CountFull<T>(s: seq<T>, x: T)
    ensures Count(s, x) == |s| <==> forall i :: 0 <= i < |s| ==> s[i] == x
  {
    if |s| > 0 {
      var p := s[..|s| - 1];
      CountFull(p, x);
      assert forall i :: 0 <= i < |p| ==> p[i] == s[i];
      if s[|s| - 1] == x {
        if forall i :: 0 <= i < |p| ==> p[i] == x {
          assert forall i :: 0 <= i < |s| ==> s[i] == x by {
            forall i | 0 <= i < |s| ensures s[i] == x {
              if i < |p| { assert p[i] == x; }
            }
          }
        }
      }
    }
  }

  /** No position holds `x` exactly when the count is zero. */
  lemma {:induction false} CountNone<T>(s: seq<T>, x: T)
    ensures Count(s, x) == 0 <==> forall i :: 0 <= i < |s| ==> s[i] != x
  {
    if |s| > 0 {
      var p := s[..|s| - 1];
      CountNone(p, x);
      assert forall i :: 0 <= i < |p| ==> p[i] == s[i];
    }
  }

  /** Overwriting one occurrence of `x` by another value `v` lowers the count of `x` by exactly one and raises
   *  that of `v` by exactly one. */
  lemma {:induction false} CountUpdate<T>(s: seq<T>, i: nat, x: T, v: T)
    requires i < |s| && s[i] == x && v != x
    ensures Count(s[i := v], x) + 1 == Count(s, x)
    ensures Count(s[i := v], v) == Count(s, v) + 1
  {
    var t := s[i := v];
    if i == |s| - 1 {
      assert t[..|t| - 1] == s[..|s| - 1];
    } else {
      assert t[..|t| - 1] == s[..|s| - 1][i := v];
      CountUpdate(s[..|s| - 1], i, x, v);
    }
  }
}
