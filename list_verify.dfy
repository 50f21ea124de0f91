/** `list_verify`: the consistency check the library runs on entry to every
    operation, as a function of the record, and the proof that every
    well-formed record passes it. */
module ListVerify {
  import opened ListTypes
  import opened ListLayout

  /** The walk along the free chain from slot f, `count` slots having been
      visited: it fails once more slots have been visited than can be free,
      or at a slot not marked free, or at a slot linked to itself. */
  function FreeWalk<T>(l: Layout<T>, f: nat, count: nat): (ok: bool)
    requires Addressable(l) && l.size <= l.capacity && f < l.capacity
    decreases l.capacity - l.size + 1 - count
  {
    if f == 0 then true
    else if count > l.capacity - l.size || l.prevs[f] != f || l.nexts[f] == f then false
    else FreeWalk(l, l.nexts[f], count + 1)
  }

  /** The walk along the live chain from slot `it`: it fails once `size`
      slots have been visited, or at a slot whose neighbours do not link
      back to it. */
  function BusyWalk<T>(l: Layout<T>, it: nat, count: nat): (ok: bool)
    requires Addressable(l) && it < l.capacity
    decreases l.size - count
  {
    if it == 0 then true
    else if count >= l.size || it != l.nexts[l.prevs[it]] || it != l.prevs[l.nexts[it]] then false
    else BusyWalk(l, l.nexts[it], count + 1)
  }

  /** The checks of `list_verify`, in its order; the first that fails names
      the error. Arrays are never null here, so LIST_BAD_MEMORY cannot arise. */
  function VerifyLayout<T>(l: Layout<T>): (e: ListError)
    requires Addressable(l)
  {
    if l.size == 0 || l.capacity < l.size then BadCapacity
    else if l.elemSize == 0 then BadElemSize
    else if (l.firstFree >= l.capacity || l.prevs[l.firstFree] != l.firstFree)
            && l.capacity != 1 && l.firstFree != 0 then BadFirstFreeElem
    else if l.head >= l.capacity || (l.size == 1 && l.head != 0) then BadHeadIterator
    else if l.tail >= l.capacity || (l.size == 1 && l.tail != 0) then BadTailIterator
    else if l.capacity == 1 then NoErr
    else if !FreeWalk(l, l.firstFree, 0) then BadFreeFields
    else if !BusyWalk(l, l.head, 0) then BadBusyFields
    else if l.prevs[0] != l.tail then BadBusyFields
    else NoErr
  }

  /** The free walk succeeds from every position of a well-formed free chain. */
  lemma {:induction false} FreeWalkFrom<T>(l: Layout<T>, live: seq<nat>, free: seq<nat>, k: nat)
    requires Represents(l, live, free)
    requires k <= |free|
    ensures Addressable(l)
    ensures FreeWalk(l, if k < |free| then free[k] else 0, k)
    decreases |free| - k
  {
    RepresentsAddressable(l, live, free);
    if k < |free| {
      var f := free[k];
      assert l.nexts[free[k]] == NextOf(free, k) && l.prevs[free[k]] == free[k];
      if k + 1 < |free| {
        assert free[k + 1] != free[k];
      }
      FreeWalkFrom(l, live, free, k + 1);
    }
  }

  /** The busy walk succeeds from every position of a well-formed live chain. */
  lemma {:induction false} BusyWalkFrom<T>(l: Layout<T>, live: seq<nat>, free: seq<nat>, k: nat)
    requires Represents(l, live, free)
    requires k <= |live|
    ensures Addressable(l)
    ensures BusyWalk(l, if k < |live| then live[k] else 0, k)
    decreases |live| - k
  {
    RepresentsAddressable(l, live, free);
    if k < |live| {
      var it := live[k];
      assert l.nexts[live[k]] == NextOf(live, k) && l.prevs[live[k]] == PrevOf(live, k);
      if k > 0 {
        assert l.nexts[live[k - 1]] == NextOf(live, k - 1);
      }
      if k + 1 < |live| {
        assert l.prevs[live[k + 1]] == PrevOf(live, k + 1);
      }
      BusyWalkFrom(l, live, free, k + 1);
    }
  }

  /** Every record the invariant describes passes `list_verify`. */
  lemma RepresentsVerifies<T>(l: Layout<T>, live: seq<nat>, free: seq<nat>)
    requires Represents(l, live, free)
    ensures Addressable(l)
    ensures VerifyLayout(l) == NoErr
  {
    RepresentsAddressable(l, live, free);
    FreeWalkFrom(l, live, free, 0);
    BusyWalkFrom(l, live, free, 0);
    if free != [] {
      assert l.prevs[free[0]] == free[0];
    }
  }
}
