/** An ordered list of callbacks.  Each callback is invoked with the boolean result of the one before it, and
 *  callbacks are compared by value to find the ones to erase.  A callback here is a value of type `C`; what calling
 *  it does is given by a function `call(callback, chained, args)`, which stands for the call operator the list
 *  dispatches to. */
module CallbackLists {
  /** The position of the first `cb` in `s`, or `|s|` when there is none. */
  function FirstIndex<C(==)>(s: seq<C>, cb: C): (i: nat)
    ensures i <= |s| && forall j :: 0 <= j < i ==> s[j] != cb
    ensures i < |s| ==> s[i] == cb
    ensures i == |s| <==> cb !in s
  {
    if s == [] then 0
    else if s[0] == cb then 0
    else FirstIndex(s[1..], cb) + 1
  }

  /** The position of the last `cb` in `s`, or -1 when there is none. */
  function LastIndex<C(==)>(s: seq<C>, cb: C): (i: int)
    ensures -1 <= i < |s| && forall j :: i < j < |s| ==> s[j] != cb
    ensures i >= 0 ==> s[i] == cb
    ensures i == -1 <==> cb !in s
  {
    if s == [] then -1
    else if s[|s| - 1] == cb then |s| - 1
    else LastIndex(s[..|s| - 1], cb)
  }

  /** `s` without its element at position `i`, or `s` itself when `i` is not a position of `s`. */
  function RemoveAt<C>(s: seq<C>, i: int): (r: seq<C>)
    ensures 0 <= i < |s| ==> |r| == |s| - 1 && r[..i] == s[..i] && r[i..] == s[i + 1..]
    ensures !(0 <= i < |s|) ==> r == s
  {
    if 0 <= i < |s| then s[..i] + s[i + 1..] else s
  }

  /** The elements of `s` other than `cb`, in their order. */
  function Without<C(==)>(s: seq<C>, cb: C): seq<C> {
    if s == [] then [] else Without(s[..|s| - 1], cb) + (if s[|s| - 1] == cb then [] else [s[|s| - 1]])
  }

  lemma {:induction false} WithoutMembers<C>(s: seq<C>, cb: C)
    ensures forall c :: c in Without(s, cb) <==> c in s && c != cb
  {
    if s != [] {
      WithoutMembers(s[..|s| - 1], cb);
      assert s == s[..|s| - 1] + [s[|s| - 1]];
    }
  }

  lemma {:induction false} WithoutConcat<C>(s: seq<C>, t: seq<C>, cb: C)
    ensures Without(s + t, cb) == Without(s, cb) + Without(t, cb)
    decreases |t|
  {
    if t != [] {
      assert (s + t)[..|s + t| - 1] == s + t[..|t| - 1];
      WithoutConcat(s, t[..|t| - 1], cb);
    } else {
      assert s + t == s;
    }
  }

  /** One step of `eraseMatching`: the list is the kept part of `s[..j]` followed by `s[j..]`, and the element at the
   *  cursor is `s[j]`, which is either erased or kept. */
  lemma EraseMatchingStep<C>(s: seq<C>, j: nat, cb: C, cur: seq<C>)
    requires j < |s| && cur == Without(s[..j], cb) + s[j..]
    ensures var i := |Without(s[..j], cb)|;
            && i < |cur| && cur[i] == s[j]
            && (s[j] == cb ==> cur[..i] + cur[i + 1..] == Without(s[..j + 1], cb) + s[j + 1..])
            && (s[j] != cb ==> cur == Without(s[..j + 1], cb) + s[j + 1..] && |Without(s[..j + 1], cb)| == i + 1)
  {
    var kept := Without(s[..j], cb);
    assert s[..j + 1][..j] == s[..j];
    assert s[j..] == [s[j]] + s[j + 1..];
    assert cur[..|kept|] == kept;
    assert cur[|kept| + 1..] == s[j + 1..];
  }

  /** Erasing every match twice erases nothing more. */
  lemma WithoutIdempotent<C>(s: seq<C>, cb: C)
    ensures Without(Without(s, cb), cb) == Without(s, cb)
  {
    WithoutMembers(s, cb);
    WithoutUnchanged(Without(s, cb), cb);
  }

  lemma {:induction false} WithoutUnchanged<C>(s: seq<C>, cb: C)
    requires cb !in s
    ensures Without(s, cb) == s
  {
    if s != [] {
      assert s[|s| - 1] in s;
      assert forall c :: c in s[..|s| - 1] ==> c in s;
      WithoutUnchanged(s[..|s| - 1], cb);
    }
  }

  /** The result of running the callbacks of `s` in order on `chained`, each taking the previous result. */
  function Chain<C, A>(s: seq<C>, chained: bool, args: A, call: (C, bool, A) -> bool): bool {
    if s == [] then chained else Chain(s[1..], call(s[0], chained, args), args, call)
  }

  /** Running two lists one after the other is running their concatenation. */
  lemma {:induction false} ChainConcat<C, A>(s: seq<C>, t: seq<C>, chained: bool, args: A, call: (C, bool, A) -> bool)
    ensures Chain(s + t, chained, args, call) == Chain(t, Chain(s, chained, args, call), args, call)
  {
    if s != [] {
      assert (s + t)[1..] == s[1..] + t;
      ChainConcat(s[1..], t, call(s[0], chained, args), args, call);
    } else {
      assert s + t == t;
    }
  }

  class Callbacks<C(==)> {
    var callbacks: seq<C>

    constructor ()
      ensures callbacks == []
    {
      callbacks := [];
    }

    function IsEmpty(): (b: bool)
      reads this
      ensures b <==> |callbacks| == 0
    {
      callbacks == []
    }

    /** Adds `callback` at the end. */
    method Append(callback: C) returns (self: Callbacks<C>)
      modifies this
      ensures self == this && callbacks == old(callbacks) + [callback]
    {
      callbacks := callbacks + [callback];
      self := this;
    }

    /** Adds the callbacks of `other` at the end, in their order. */
    method AppendAll(other: Callbacks<C>) returns (self: Callbacks<C>)
      modifies this
      ensures self == this && callbacks == old(callbacks) + old(other.callbacks)
    {
      callbacks := callbacks + other.callbacks;
      self := this;
    }

    /** Adds `callback` at the front. */
    method Prepend(callback: C) returns (self: Callbacks<C>)
      modifies this
      ensures self == this && callbacks == [callback] + old(callbacks)
    {
      callbacks := [callback] + callbacks;
      self := this;
    }

    /** Adds the callbacks of `other` at the front, in their order. */
    method PrependAll(other: Callbacks<C>) returns (self: Callbacks<C>)
      modifies this
      ensures self == this && callbacks == old(other.callbacks) + old(callbacks)
    {
      callbacks := other.callbacks + callbacks;
      self := this;
    }

    /** Removes the first callback equal to `callback`, if any. */
    method EraseFirst(callback: C) returns (self: Callbacks<C>)
      modifies this
      ensures self == this && callbacks == RemoveAt(old(callbacks), FirstIndex(old(callbacks), callback))
    {
      var k := 0;
      while k < |callbacks| && callbacks[k] != callback
        invariant k <= |callbacks| && forall j :: 0 <= j < k ==> callbacks[j] != callback
      {
        k := k + 1;
      }
      FirstIndexUnique(callbacks, callback, k);
      if k < |callbacks| {
        callbacks := callbacks[..k] + callbacks[k + 1..];
      }
      self := this;
    }

    /** Removes the last callback equal to `callback`, if any. */
    method EraseLast(callback: C) returns (self: Callbacks<C>)
      modifies this
      ensures self == this && callbacks == RemoveAt(old(callbacks), LastIndex(old(callbacks), callback))
    {
      var n: nat := |callbacks|;
      while n > 0 && callbacks[n - 1] != callback
        invariant n <= |callbacks| && forall j :: n <= j < |callbacks| ==> callbacks[j] != callback
      {
        n := n - 1;
      }
      var k := n - 1;
      LastIndexUnique(callbacks, callback, k);
      if k >= 0 {
        callbacks := callbacks[..k] + callbacks[k + 1..];
      }
      self := this;
    }

    /** Removes every callback equal to `callback`, keeping the others in order. */
    method EraseMatching(callback: C) returns (self: Callbacks<C>)
      modifies this
      ensures self == this && callbacks == Without(old(callbacks), callback)
    {
      ghost var original := callbacks;
      ghost var j := 0;
      var i := 0;
      while i < |callbacks|
        invariant j <= |original| && i == |Without(original[..j], callback)|
        invariant callbacks == Without(original[..j], callback) + original[j..]
        decreases |callbacks| - i
      {
        EraseMatchingStep(original, j, callback, callbacks);
        if callbacks[i] == callback {
          callbacks := callbacks[..i] + callbacks[i + 1..];
        } else {
          i := i + 1;
        }
        j := j + 1;
      }
      assert original[..|original|] == original;
      self := this;
    }

    /** Threads `chained` through the callbacks from first to last and returns the final value. */
    method Apply<A>(chained: bool, args: A, call: (C, bool, A) -> bool) returns (r: bool)
      ensures r == Chain(callbacks, chained, args, call)
      ensures callbacks == [] ==> r == chained
    {
      r := chained;
      for k := 0 to |callbacks|
        invariant Chain(callbacks[k..], r, args, call) == Chain(callbacks, chained, args, call)
      {
        assert callbacks[k..][1..] == callbacks[k + 1..];
        r := call(callbacks[k], r, args);
      }
    }
  }

  /** Erasing the matches of `cb` never lengthens a list, and shortens it when `cb` occurs. */
  lemma {:induction false} WithoutShorter<C>(s: seq<C>, cb: C)
    ensures |Without(s, cb)| <= |s|
    ensures cb in s ==> |Without(s, cb)| < |s|
  {
    if s != [] {
      WithoutShorter(s[..|s| - 1], cb);
      assert s == s[..|s| - 1] + [s[|s| - 1]];
    }
  }

  /** What `isEmpty` tells a caller: an empty list is inert, since applying it passes `chained` through and no erase
   *  finds anything to remove; a non-empty list is not, since its front callback is found at the front and erasing
   *  its matches shortens the list. */
  lemma EmptyListIsInert<C, A>(list: Callbacks<C>, cb: C, chained: bool, args: A, call: (C, bool, A) -> bool)
    ensures list.IsEmpty() ==> Chain(list.callbacks, chained, args, call) == chained
    ensures list.IsEmpty() ==> FirstIndex(list.callbacks, cb) == 0 && LastIndex(list.callbacks, cb) == -1
    ensures list.IsEmpty() ==> Without(list.callbacks, cb) == list.callbacks
    ensures !list.IsEmpty() ==> FirstIndex(list.callbacks, list.callbacks[0]) == 0
    ensures !list.IsEmpty() ==> |Without(list.callbacks, list.callbacks[0])| < |list.callbacks|
  {
    if !list.IsEmpty() {
      WithoutShorter(list.callbacks, list.callbacks[0]);
    }
  }

  lemma FirstIndexUnique<C>(s: seq<C>, cb: C, k: nat)
    requires k <= |s| && (forall j :: 0 <= j < k ==> s[j] != cb) && (k < |s| ==> s[k] == cb)
    ensures k == FirstIndex(s, cb)
  {
  }

  lemma LastIndexUnique<C>(s: seq<C>, cb: C, k: int)
    requires -1 <= k < |s| && (forall j :: k < j < |s| ==> s[j] != cb) && (k >= 0 ==> s[k] == cb)
    ensures k == LastIndex(s, cb)
  {
  }

  /** Erasing the last occurrence of a callback just appended restores the list. */
  lemma EraseLastUndoesAppend<C>(s: seq<C>, cb: C)
    ensures RemoveAt(s + [cb], LastIndex(s + [cb], cb)) == s
  {
    LastIndexUnique(s + [cb], cb, |s|);
    assert (s + [cb])[..|s|] == s;
  }

  /** Appends a callback for as long as it lives and erases its last occurrence when destroyed. */
  class TemporaryCallback<C(==)> {
    const callbacks: Callbacks<C>
    const callback: C

    constructor (callbacks: Callbacks<C>, callback: C)
      modifies callbacks
      ensures this.callbacks == callbacks && this.callback == callback
      ensures callbacks.callbacks == old(callbacks.callbacks) + [callback]
    {
      this.callbacks := callbacks;
      this.callback := callback;
      new;
      var _ := callbacks.Append(callback);
    }

    /** The destructor. */
    method Destroy()
      modifies callbacks
      ensures callbacks.callbacks == RemoveAt(old(callbacks.callbacks), LastIndex(old(callbacks.callbacks), callback))
    {
      var _ := callbacks.EraseLast(callback);
    }
  }

  /** A temporary callback whose list nobody else touched leaves that list as it found it. */
  method TemporaryCallbackRestores<C(==)>(list: Callbacks<C>, callback: C)
    modifies list
    ensures list.callbacks == old(list.callbacks)
  {
    var guard := new TemporaryCallback(list, callback);
    EraseLastUndoesAppend(old(list.callbacks), callback);
    guard.Destroy();
  }
}
