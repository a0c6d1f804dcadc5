/** A last-in-first-out container.  The items are kept bottom first, as the underlying list stores them; index 0 of
 *  the stack is its top. */
module Stacks {
  /** `s` read from its end to its start: a stack's items from the top down. */
  function Reversed<T>(s: seq<T>): (r: seq<T>)
    ensures |r| == |s|
  {
    if s == [] then [] else [s[|s| - 1]] + Reversed(s[..|s| - 1])
  }

  lemma {:induction false} ReversedAt<T>(s: seq<T>, i: nat)
    requires i < |s|
    ensures Reversed(s)[i] == s[|s| - 1 - i]
  {
    if i > 0 {
      ReversedAt(s[..|s| - 1], i - 1);
    }
  }

  lemma ReversedPush<T>(s: seq<T>, v: T)
    ensures Reversed(s + [v]) == [v] + Reversed(s)
  {
    assert (s + [v])[..|s|] == s;
  }

  class Stack<T> {
    /** The items, bottom first. */
    var items: seq<T>

    /** The items from the top down: `get(0)`, `get(1)`, and so on. */
    function Contents(): seq<T>
      reads this
    {
      Reversed(items)
    }

    /** An empty stack. */
    constructor ()
      ensures items == []
    {
      items := [];
    }

    /** A stack holding the elements of `range` pushed in order, so that its last element is the top. */
    constructor FromRange(range: seq<T>)
      ensures items == range
      ensures Contents() == Reversed(range)
      ensures range != [] ==> Top() == range[|range| - 1]
    {
      items := [];
      new;
      for k := 0 to |range|
        invariant items == range[..k]
      {
        assert range[..k + 1] == range[..k] + [range[k]];
        items := items + [range[k]];
      }
      assert range[..|range|] == range;
    }

    /** The number of items on the stack. */
    function Size(): (n: nat)
      reads this
      ensures n == |Contents()|
    {
      |items|
    }

    /** Whether the stack holds no items. */
    function IsEmpty(): (b: bool)
      reads this
      ensures b <==> Size() == 0
    {
      |items| == 0
    }

    /** The top item; the stack must not be empty. */
    function Top(): (v: T)
      requires !IsEmpty()
      reads this
      ensures v == Contents()[0]
    {
      ReversedAt(items, 0);
      items[|items| - 1]
    }

    /** The `idx`-th item counting down from the top. */
    function Get(idx: nat): (v: T)
      requires idx < Size()
      reads this
      ensures v == Contents()[idx]
      ensures idx == 0 ==> v == Top()
    {
      ReversedAt(items, idx);
      items[|items| - (idx + 1)]
    }

    /** Writes through the reference that `get(idx)`, `operator[]` and, for `idx == 0`, `top()` return: the
     *  `idx`-th item from the top becomes `value` and no other item changes. */
    method Set(idx: nat, value: T)
      requires idx < Size()
      modifies this
      ensures Contents() == old(Contents())[idx := value]
      ensures Get(idx) == value && Size() == old(Size())
      ensures idx == 0 ==> Top() == value
    {
      ghost var before := items;
      items := items[|items| - 1 - idx := value];
      forall k | 0 <= k < |items| ensures Contents()[k] == Reversed(before)[idx := value][k] {
        ReversedAt(items, k);
        ReversedAt(before, k);
      }
    }

    /** Pushes `value` onto the top; returns the stack itself so that calls can be chained. */
    method Push(value: T) returns (self: Stack<T>)
      modifies this
      ensures self == this && items == old(items) + [value]
      ensures Contents() == [value] + old(Contents())
      ensures Top() == value && Size() == old(Size()) + 1
    {
      ReversedPush(items, value);
      items := items + [value];
      self := this;
    }

    /** Removes the top item and returns it; the stack must not be empty. */
    method Pop() returns (v: T)
      requires !IsEmpty()
      modifies this
      ensures v == old(Top())
      ensures items == old(items[..|items| - 1])
      ensures Contents() == old(Contents()[1..])
      ensures Size() == old(Size()) - 1
    {
      v := Top();
      ReversedPush(items[..|items| - 1], v);
      assert items == items[..|items| - 1] + [v];
      items := items[..|items| - 1];
    }

    /** Pushing then popping returns the pushed value and leaves the stack as it was. */
    method PushThenPop(value: T) returns (v: T)
      modifies this
      ensures v == value && items == old(items)
    {
      var _ := Push(value);
      v := Pop();
    }
  }
}
