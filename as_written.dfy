/** The routines of `src/list.c` whose code breaks the invariant, exactly as
    they are written, on layouts taken as values, with a concrete well-formed
    list on which each of them leaves a record that `list_verify` rejects or
    whose normalized flag lies, and the example's record, on which
    `list_normalize` as written succeeds. The class `DoublyLinkedList.List`
    implements the corrected routines. */
module ListAsWritten {
  import opened ListTypes
  import opened ListLayout
  import opened ListVerify
  import opened ListNormalize

  /** `list_swap_vals` as its three copies run: slot 0 is the scratch cell. */
  function SwapAsWritten<T>(d: seq<T>, a: nat, b: nat): (r: seq<T>)
    requires a < |d| && b < |d|
    ensures |r| == |d|
    ensures 0 < a && 0 < b ==> r == SwapData(d, a, b)
  {
    var d1 := d[0 := d[a]];
    var d2 := d1[a := d1[b]];
    d2[b := d2[0]]
  }

  /** One pass of the renumbering loop of `list_normalize` as written, at
      position i with the i-th element expected in slot `it`; returns the
      new layout and the slot the loop moves on to. */
  function NormalizeStepAsWritten<T>(l: Layout<T>, i: nat, it: nat): (r: (Layout<T>, nat))
    requires Addressable(l) && |l.data| == l.capacity && 1 <= l.size <= l.capacity
    requires 0 < i < l.capacity && it < l.capacity
    ensures Addressable(r.0) && |r.0.data| == r.0.capacity && r.1 < r.0.capacity
    ensures r.0.size == l.size && r.0.capacity == l.capacity && r.0.normalized == l.normalized
  {
    if i == it then
      (l.(nexts := l.nexts[i := (i + 1) % l.size], prevs := l.prevs[i := i - 1]), l.nexts[it])
    else
      var tmpIt := l.nexts[it];
      var nexts1 := l.nexts[it := l.nexts[i]];
      var p := l.prevs[i];
      var nexts2 := nexts1[p := if nexts1[p] > i then it else nexts1[p]];
      (l.(data := SwapAsWritten(l.data, i, it),
          nexts := nexts2[i := (i + 1) % l.size],
          prevs := l.prevs[i := i - 1]),
       tmpIt)
  }

  /** The renumbering loop of `list_normalize` as written, from position i on. */
  function NormalizeLoopAsWritten<T>(l: Layout<T>, i: nat, it: nat): (r: Layout<T>)
    requires Addressable(l) && |l.data| == l.capacity && 1 <= l.size <= l.capacity
    requires 1 <= i && it < l.capacity
    ensures Addressable(r) && |r.data| == r.capacity && r.size == l.size && r.capacity == l.capacity
    ensures r.normalized == l.normalized
    decreases l.size - i
  {
    if i >= l.size then l
    else
      var step := NormalizeStepAsWritten(l, i, it);
      NormalizeLoopAsWritten(step.0, i + 1, step.1)
  }

  /** The loop both `list_normalize` and `list_change_capacity` end with:
      every slot from `from` on is pointed at the next one (the last at 0)
      and marked free. */
  function Rethread(nexts: seq<nat>, prevs: seq<nat>, from: nat, capacity: nat): (r: (seq<nat>, seq<nat>))
    requires |nexts| == capacity && |prevs| == capacity
    ensures |r.0| == capacity && |r.1| == capacity
    ensures forall j :: 0 <= j < capacity ==> r.0[j] == (if j < from then nexts[j] else (j + 1) % capacity)
    ensures forall j :: 0 <= j < capacity ==> r.1[j] == (if j < from then prevs[j] else j)
  {
    (seq(capacity, j requires 0 <= j < capacity => if j < from then nexts[j] else (j + 1) % capacity),
     seq(capacity, j requires 0 <= j < capacity => if j < from then prevs[j] else j))
  }

  /** `list_normalize` as written: an empty list only gets its flag set, and
      a non-empty one is renumbered by the loop above before the sentinel,
      head, tail and first_free are set and the free slots rethreaded. */
  function NormalizeAsWritten<T>(l: Layout<T>): (r: Layout<T>)
    requires Addressable(l) && |l.data| == l.capacity && 1 <= l.size <= l.capacity && l.head < l.capacity
    ensures r.normalized && r.size == l.size && r.capacity == l.capacity
  {
    if l.normalized then l
    else if l.size == 1 then l.(normalized := true)
    else
      var m := NormalizeLoopAsWritten(l.(normalized := true), 1, l.head);
      NormalizeEndAsWritten(m)
  }

  /** What `list_normalize` as written does after its loop. */
  function NormalizeEndAsWritten<T>(m: Layout<T>): (r: Layout<T>)
    requires |m.nexts| == m.capacity && |m.prevs| == m.capacity && 2 <= m.size <= m.capacity
    ensures r.normalized == m.normalized && r.size == m.size && r.capacity == m.capacity
    ensures r.head == 1 && r.tail == m.size - 1
  {
    var links := Rethread(m.nexts[0 := 1], m.prevs[0 := m.size - 1], m.size, m.capacity);
    m.(head := 1, tail := m.size - 1, nexts := links.0, prevs := links.1,
       firstFree := if m.size < m.capacity || m.size == 1 then m.size else 0)
  }

  /** The walk of `list_change_capacity` to the end of the free chain,
      bounded by `steps`. */
  function ChainEndAsWritten(nexts: seq<nat>, f: nat, steps: nat): (last: nat)
    requires f < |nexts| && forall s :: 0 <= s < |nexts| ==> nexts[s] < |nexts|
    ensures last < |nexts|
    decreases steps
  {
    if nexts[f] == 0 || steps == 0 then f else ChainEndAsWritten(nexts, nexts[f], steps - 1)
  }

  /** The growing branch of `list_change_capacity` as written, to n slots
      (`blank` stands for the payloads of the new slots, which the copy
      reads from past the end of the old array and so are unspecified): the end of the
      free chain is pointed at `size`, and every slot from `size` on is
      threaded into the free chain. A full list makes the walk start at slot
      `size`, one past the old arrays; that case is not modelled here. */
  function GrowAsWritten<T>(l: Layout<T>, n: nat, blank: T): (r: Layout<T>)
    requires Addressable(l) && |l.data| == l.capacity && 1 <= l.size <= l.capacity < n
    requires l.firstFree < l.capacity && (l.firstFree != 0 || l.size < l.capacity)
    ensures r.capacity == n && |r.nexts| == n && |r.prevs| == n && |r.data| == n
  {
    var first := if l.firstFree != 0 then l.firstFree else l.size;
    var last := ChainEndAsWritten(l.nexts, first, l.capacity);
    var links := Rethread((l.nexts + seq(n - l.capacity, _ => 0))[last := l.size],
                          l.prevs + seq(n - l.capacity, _ => 0), l.size, n);
    l.(data := l.data + seq(n - l.capacity, _ => blank),
       nexts := links.0, prevs := links.1, firstFree := first, capacity := n)
  }

  /** The shrinking branch of `list_change_capacity` as written, on an
      ordered list: the arrays are cut to n entries and nothing else changes. */
  function ShrinkAsWritten<T>(l: Layout<T>, n: nat): (r: Layout<T>)
    requires Sized(l) && n <= l.capacity
    ensures r.capacity == n && |r.nexts| == n && |r.prevs| == n && |r.data| == n
  {
    l.(data := l.data[..n], nexts := l.nexts[..n], prevs := l.prevs[..n], capacity := n)
  }

  /** `list_clear` as written: the flag is set and the size reset to 1, then
      `list_change_capacity(0)` keeps one slot (its normalization is skipped,
      the flag being set already), and the sentinel is linked to itself;
      head, tail and first_free keep their old values. */
  function ClearAsWritten<T>(l: Layout<T>): (r: Layout<T>)
    requires Sized(l) && 1 <= l.capacity
    ensures r.capacity == 1 && r.size == 1 && r.head == l.head && r.tail == l.tail && r.firstFree == l.firstFree
  {
    l.(data := l.data[..1], nexts := [0], prevs := [0], size := 1, capacity := 1, normalized := true)
  }

  /** The list [10, 20] with its first element in slot 2 and its second in
      slot 1, in a full record of three slots. */
  function Swapped(): Layout<int>
  {
    Layout([0, 20, 10], [2, 0, 1], [1, 2, 0], 1, 3, 3, 0, 2, 1, false)
  }

  lemma SwappedWellFormed()
    ensures WellFormed(Swapped(), [2, 1], [], [10, 20])
  {
    assert Partition([2, 1], [], 3) by {
      assert [2, 1][0] == 2 && [2, 1][1] == 1;
    }
  }

  /** `list_normalize` as written breaks the links of a well-formed list:
      slot 1 ends the chain but slot 0 still names slot 2 as the tail, so
      `list_verify` reports LIST_BAD_BUSY_FIELDS (and the element 10 is no
      longer reachable). */
  lemma NormalizeBreaksLinks()
    ensures Addressable(NormalizeAsWritten(Swapped()))
    ensures VerifyLayout(NormalizeAsWritten(Swapped())) == BadBusyFields
  {
    var l := Swapped().(normalized := true);
    var s1 := NormalizeStepAsWritten(l, 1, 2);
    assert s1.0.nexts == [2, 2, 0] && s1.0.prevs == [1, 0, 0] && s1.1 == 1;
    var s2 := NormalizeStepAsWritten(s1.0, 2, 1);
    assert s2.0.nexts == [2, 0, 0] && s2.0.prevs == [1, 0, 1];
    assert NormalizeLoopAsWritten(l, 1, 2) == s2.0;
    var r := NormalizeEndAsWritten(s2.0);
    assert r.nexts == [1, 0, 0] && r.prevs == [2, 0, 1];
    assert r.firstFree == 0 && r.elemSize == 1;
    assert !BusyWalk(r, 1, 0);
  }

  /** An empty list whose free chain runs 2, 1 (left so by erasing the
      element in slot 1 and then the one in slot 2). */
  function EmptyUnordered(): Layout<int>
  {
    Layout([0, 0, 0], [0, 0, 1], [0, 1, 2], 1, 1, 3, 2, 0, 0, false)
  }

  lemma EmptyUnorderedWellFormed()
    ensures WellFormed(EmptyUnordered(), [], [2, 1], [])
  {
    assert Partition([], [2, 1], 3) by {
      assert [2, 1][0] == 2 && [2, 1][1] == 1;
    }
  }

  /** `list_normalize` as written marks that empty list normalized without
      rebuilding its free chain, so no chain the flag allows exists: the next
      element would go into slot 2 while the flag promises slot 1. */
  lemma NormalizeEmptyKeepsChain()
    ensures NormalizeAsWritten(EmptyUnordered()).normalized
    ensures NormalizeAsWritten(EmptyUnordered()).firstFree == 2
    ensures forall live, free :: !Represents(NormalizeAsWritten(EmptyUnordered()), live, free)
  {
    assert NormalizeAsWritten(EmptyUnordered()) == EmptyUnordered().(normalized := true);
  }

  /** The list [7] in slot 2 of three slots, slot 1 free (left so by
      inserting two elements and erasing the first). */
  function OneAfterErase(): Layout<int>
  {
    Layout([0, 0, 7], [2, 0, 0], [2, 1, 0], 1, 2, 3, 1, 2, 2, false)
  }

  lemma OneAfterEraseWellFormed()
    ensures WellFormed(OneAfterErase(), [2], [1], [7])
  {
    assert Partition([2], [1], 3) by {
      assert [2][0] == 2 && [1][0] == 1;
    }
  }

  /** Growing that list to four slots as written threads its element's slot
      into the free chain: `list_verify` reports LIST_BAD_BUSY_FIELDS. */
  lemma GrowClobbersElement()
    ensures Addressable(GrowAsWritten(OneAfterErase(), 4, 0))
    ensures VerifyLayout(GrowAsWritten(OneAfterErase(), 4, 0)) == BadBusyFields
  {
    var l := OneAfterErase();
    assert ChainEndAsWritten(l.nexts, 1, 3) == 1;
    var r := GrowAsWritten(l, 4, 0);
    assert r.nexts == [2, 2, 3, 0] && r.prevs == [2, 1, 2, 3];
    assert FreeWalk(r, 0, 3) && FreeWalk(r, 3, 2) && FreeWalk(r, 2, 1) && FreeWalk(r, 1, 0);
    assert !BusyWalk(r, 2, 0);
  }

  /** The normalized list [7] in slot 1 of three slots. */
  function OneOrdered(): Layout<int>
  {
    Layout([0, 7, 0], [1, 0, 0], [1, 0, 2], 1, 2, 3, 2, 1, 1, true)
  }

  lemma OneOrderedWellFormed()
    ensures WellFormed(OneOrdered(), [1], [2], [7])
  {
    assert Partition([1], [2], 3) by {
      assert [1][0] == 1 && [2][0] == 2;
    }
  }

  /** Shrinking that list to two slots as written leaves first_free naming
      slot 2, past the arrays: `list_verify` reports LIST_BAD_FIRST_FREE_ELEM. */
  lemma ShrinkKeepsFirstFree()
    ensures Addressable(ShrinkAsWritten(OneOrdered(), 2))
    ensures VerifyLayout(ShrinkAsWritten(OneOrdered(), 2)) == BadFirstFreeElem
  {
  }

  /** Clearing that list as written leaves head naming slot 1 of a one-slot
      record: `list_verify` reports LIST_BAD_HEAD_ITERATOR. */
  lemma ClearKeepsHead()
    ensures Addressable(ClearAsWritten(OneOrdered()))
    ensures VerifyLayout(ClearAsWritten(OneOrdered())) == BadHeadIterator
  {
  }

  /** The list [7] in slot 3 of four slots. */
  function InSlotThree(): Layout<int>
  {
    Layout([0, 0, 0, 7], [3, 2, 0, 0], [3, 1, 2, 0], 1, 2, 4, 1, 3, 3, false)
  }

  /** A one-element list may keep its element in slot 3, the slot
      `list_erase_by_index` as written erases for an index past the end. */
  lemma SlotThreeReachable()
    ensures WellFormed(InSlotThree(), [BadIndex.Code()], [1, 2], [7])
  {
    assert Partition([3], [1, 2], 4) by {
      assert [1, 2][0] == 1 && [1, 2][1] == 2 && [3][0] == 3;
    }
  }

  /** The record `example/example.c` reaches before its `list_normalize`
      when the growth at its `list_insert_to_tail(4)` behaves as the corrected
      growth (as written, the C reads past the old arrays there): [1, 3, 4] in
      slots 1, 4 and 3, the free chain 2, 5, 6, and the stale payloads 20 and
      50 left in slots 2 and 5. The 0 in slot 6 stands for an unspecified
      payload. */
  function BeforeNormalize(): Layout<int>
  {
    Layout([0, 1, 20, 4, 3, 50, 0], [1, 4, 5, 0, 3, 6, 0], [3, 0, 2, 4, 1, 5, 6], 4, 4, 7, 2, 1, 3, false)
  }

  lemma BeforeNormalizeWellFormed()
    ensures WellFormed(BeforeNormalize(), [1, 4, 3], [2, 5, 6], [1, 3, 4])
  {
    BeforeNormalizePartition();
    BeforeNormalizeLinked();
  }

  lemma BeforeNormalizePartition()
    ensures Partition([1, 4, 3], [2, 5, 6], 7)
  {
    var live, free := [1, 4, 3], [2, 5, 6];
    assert live[0] == 1 && live[1] == 4 && live[2] == 3;
    assert free[0] == 2 && free[1] == 5 && free[2] == 6;
    assert Disjoint(live, free) by {
      forall j, k | 0 <= j < 3 && 0 <= k < 3 ensures live[j] != free[k] {
      }
    }
    forall s | 0 < s < 7 ensures s in live || s in free {
      if s == 1 {
        assert live[0] == s;
      } else if s == 3 {
        assert live[2] == s;
      } else if s == 4 {
        assert live[1] == s;
      } else if s == 2 {
        assert free[0] == s;
      } else {
        assert free[s - 4] == s;
      }
    }
  }

  lemma BeforeNormalizeLinked()
    ensures Linked(BeforeNormalize().nexts, BeforeNormalize().prevs, [1, 4, 3])
    ensures FreeLinked(BeforeNormalize().nexts, BeforeNormalize().prevs, [2, 5, 6])
  {
    var l, live, free := BeforeNormalize(), [1, 4, 3], [2, 5, 6];
    assert live[0] == 1 && live[1] == 4 && live[2] == 3;
    assert free[0] == 2 && free[1] == 5 && free[2] == 6;
  }

  /** The ordered record [1, 3, 4] in slots 1 .. 3 of seven, the free slots
      4 .. 6 following, with the payloads the swaps of `list_normalize` leave. */
  function AfterNormalize(): Layout<int>
  {
    Layout([20, 1, 3, 4, 20, 50, 0], [1, 2, 3, 0, 5, 6, 0], [3, 0, 1, 2, 4, 5, 6], 4, 4, 7, 4, 1, 3, true)
  }

  /** The renumbering loop on the example's record: slot 1 already holds the
      first element, the second (3) moves from slot 4 into slot 2 with the
      stale 20 going the other way, and slot 3 already holds the third. */
  lemma RenumberExampleAsWritten()
    ensures NormalizeLoopAsWritten(BeforeNormalize().(normalized := true), 1, 1)
            == AfterNormalize().(prevs := [3, 0, 1, 2, 1, 5, 6], firstFree := 2)
  {
    var l := BeforeNormalize().(normalized := true);
    var s1 := NormalizeStepAsWritten(l, 1, 1);
    assert s1.0.nexts == [1, 2, 5, 0, 3, 6, 0] && s1.0.prevs == l.prevs && s1.1 == 4;
    assert s1 == (l.(nexts := [1, 2, 5, 0, 3, 6, 0]), 4);
    var s2 := NormalizeStepAsWritten(s1.0, 2, 4);
    assert s2.0.data == [20, 1, 3, 4, 20, 50, 0];
    assert s2.0.nexts == [1, 2, 3, 0, 5, 6, 0] && s2.0.prevs == [3, 0, 1, 4, 1, 5, 6] && s2.1 == 3;
    assert s2 == (l.(data := [20, 1, 3, 4, 20, 50, 0], nexts := [1, 2, 3, 0, 5, 6, 0], prevs := [3, 0, 1, 4, 1, 5, 6]), 3);
    var s3 := NormalizeStepAsWritten(s2.0, 3, 3);
    assert s3.0 == s2.0.(prevs := [3, 0, 1, 2, 1, 5, 6]);
    assert NormalizeLoopAsWritten(s3.0, 4, s3.1) == s3.0;
  }

  /** On the example's record `list_normalize` as written does what it
      promises: after the renumbering, the sentinel's links, head, tail,
      first_free and the rethreaded free slots give the ordered record. */
  lemma NormalizeExampleAsWritten()
    ensures NormalizeAsWritten(BeforeNormalize()) == AfterNormalize()
  {
    RenumberExampleAsWritten();
    var m := AfterNormalize().(prevs := [3, 0, 1, 2, 1, 5, 6], firstFree := 2);
    var r := NormalizeEndAsWritten(m);
    assert r.nexts == [1, 2, 3, 0, 5, 6, 0] && r.prevs == [3, 0, 1, 2, 4, 5, 6];
    assert r == AfterNormalize();
  }

  /** The record `list_normalize` leaves on the example is well formed, in
      slot order, and `list_verify` accepts it. */
  lemma AfterNormalizeWellFormed()
    ensures WellFormed(AfterNormalize(), [1, 2, 3], [4, 5, 6], [1, 3, 4])
    ensures VerifyLayout(AfterNormalize()) == NoErr
  {
    var l := AfterNormalize();
    assert l.nexts == OrderedNexts(4, 7) && l.prevs == OrderedPrevs(4, 7);
    LinksOrdered(l);
    OrderedRepresents(l);
    assert Range(1, 4) == [1, 2, 3] && Range(4, 7) == [4, 5, 6];
    RepresentsVerifies(l, [1, 2, 3], [4, 5, 6]);
  }
}
