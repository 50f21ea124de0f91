/** The layout-level effect of the editing operations of `src/list.c`:
    taking the first free slot, splicing it into the live chain after an
    iterator, and unlinking an element onto the free chain. */
module ListEdit {
  import opened ListLayout
  import opened ListNormalize

  /** Element k of the list stays element k when another element is put at pos. */
  lemma {:induction false} HoldsInsert<T>(data: seq<T>, live: seq<nat>, contents: seq<T>, pos: nat, slot: nat, value: T)
    requires Holds(data, live, contents) && slot !in live && slot < |data| && pos <= |live|
    ensures Holds(data[slot := value], Insert(live, pos, slot), Insert(contents, pos, value))
  {
    InsertIndex(live, pos, slot);
    InsertIndex(contents, pos, value);
  }

  /** Removing element k from the list leaves the others where they were. */
  lemma {:induction false} HoldsRemove<T>(data: seq<T>, live: seq<nat>, contents: seq<T>, k: nat)
    requires Holds(data, live, contents) && k < |live|
    ensures Holds(data, Remove(live, k), Remove(contents, k))
  {
    RemoveIndex(live, k);
    RemoveIndex(contents, k);
  }

  /** The record `list_clear` leaves: only the sentinel, linked to itself,
      in arrays of one slot, is a well-formed empty list. */
  lemma ClearedWellFormed<T>(scratch: T, elemSize: nat)
    requires 1 <= elemSize
    ensures WellFormed(Layout([scratch], [0], [0], elemSize, 1, 1, 1, 0, 0, true), [], [], [])
  {
  }

  /** Putting an element at the front or at the end. */
  lemma InsertEnds<U>(s: seq<U>, x: U)
    ensures Insert(s, 0, x) == [x] + s && Insert(s, |s|, x) == s + [x]
  {
    assert s[..|s|] == s;
  }

  /** In a sequence without repetitions an element is found at its own position. */
  lemma IndexOfDistinct(s: seq<nat>, k: nat)
    requires Distinct(s) && k < |s|
    ensures IndexOf(s, s[k]) == k
  {
    var j := IndexOf(s, s[k]);
    assert s[j] == s[k];
  }

  /** Taking the first slot of a non-empty free chain, as
      `list_remove_first_free` does, leaves the record in the state `Popped`
      describes. */
  lemma {:induction false} TakeFirstFree<T>(l: Layout<T>, live: seq<nat>, free: seq<nat>, contents: seq<T>)
    requires WellFormed(l, live, free, contents) && free != []
    ensures free[0] == l.firstFree && free[0] < |l.nexts|
    ensures Popped(l.(size := l.size + 1, firstFree := l.nexts[free[0]]), live, free[1..], free[0])
  {
    assert l.nexts[free[0]] == NextOf(free, 0);
    assert [free[0]] + free[1..] == free;
    assert l.(size := l.size + 1, firstFree := l.nexts[free[0]]).(size := l.size, firstFree := free[0]) == l;
  }

  /** `list_insert_after` keeps the list well formed: the value becomes the
      element following `it` (the first element when `it` is the sentinel),
      and the new slot closes the chain exactly when it is appended. */
  lemma {:induction false} LinkAfterWellFormed<T>(l: Layout<T>, live: seq<nat>, free: seq<nat>, contents: seq<T>,
                                                 it: nat, slot: nat, value: T)
    requires Popped(l, live, free, slot) && Holds(l.data, live, contents)
    requires it == 0 || it in live
    ensures it < |l.nexts| && slot < |l.nexts| && slot < |l.data| && l.nexts[it] < |l.prevs|
    ensures it != slot && l.nexts[it] != slot
    ensures l.nexts[it] == 0 <==> PositionAfter(live, it) == |live|
    ensures WellFormed(LinkAfter(l, it, slot, value), Insert(live, PositionAfter(live, it), slot), free,
                       Insert(contents, PositionAfter(live, it), value))
  {
    var pos := PositionAfter(live, it);
    LinkAfterKeepsShape(l, live, free, it, slot, value);
    assert ([slot] + free)[0] == slot;
    forall j | 0 <= j < |live|
      ensures live[j] != slot
    {
      assert live[j] != ([slot] + free)[0];
    }
    NoSentinel(live, l.capacity);
    Neighbours(l.nexts, l.prevs, live, it, l.capacity);
    HoldsInsert(l.data, live, contents, pos, slot, value);
  }

  /** `list_erase` of the element at position k keeps the list well formed:
      the element leaves the list and its slot heads the free chain; the slot
      was the tail exactly when the element was the last one. */
  lemma {:induction false} UnlinkWellFormed<T>(l: Layout<T>, live: seq<nat>, free: seq<nat>, contents: seq<T>, k: nat)
    requires WellFormed(l, live, free, contents) && k < |live|
    ensures live[k] < |l.nexts| && l.nexts[live[k]] < |l.nexts| && l.prevs[live[k]] < |l.nexts|
    ensures l.nexts[live[k]] == NextOf(live, k) && l.prevs[live[k]] == PrevOf(live, k)
    ensures live[k] == l.tail <==> k + 1 == |live|
    ensures NextOf(live, k) == 0 <==> k + 1 == |live|
    ensures WellFormed(Unlink(l, live[k]), Remove(live, k), [live[k]] + free, Remove(contents, k))
  {
    UnlinkKeepsShape(l, live, free, k);
    HoldsRemove(l.data, live, contents, k);
    NoSentinel(live, l.capacity);
    if k + 1 < |live| {
      assert live[k] != live[|live| - 1];
      assert live[k + 1] != 0;
    }
  }

  /** The iterator `list_insert_before` hands to `list_insert_after` (the
      predecessor of the element at position k) puts the new element at
      position k. */
  lemma PositionBefore(live: seq<nat>, k: nat)
    requires Distinct(live) && 0 !in live && k < |live|
    ensures PrevOf(live, k) == 0 || PrevOf(live, k) in live
    ensures PositionAfter(live, PrevOf(live, k)) == k
  {
    if k > 0 {
      IndexOfDistinct(live, k - 1);
    }
  }
}
