/** The list record of `src/list.c` as a class over its three co-indexed
    arrays, with the library's operations as methods. The ghost fields name
    what the arrays encode: `Live` the slots of the elements in list order,
    `Free` the free chain and `Contents` the elements themselves. */
module DoublyLinkedList {
  import opened ListTypes
  import opened ListLayout
  import opened ListVerify
  import opened ListNormalize
  import opened ListCapacity
  import opened ListEdit

  /** The number of `size_t` entries a 64-bit address space can hold: an
      allocation of that many or more link entries always fails. */
  const SlotLimit: nat := SizeLimit / 8

  class List<T(0,==)> {
    var data: array<T>
    var nexts: array<nat>
    var prevs: array<nat>
    var elemSize: nat
    var size: nat
    var capacity: nat
    var firstFree: nat
    var head: nat
    var tail: nat
    var normalized: bool

    /** The slots of the elements, in list order. */
    ghost var Live: seq<nat>
    /** The slots of the free chain, in chain order. */
    ghost var Free: seq<nat>
    /** The elements, in list order. */
    ghost var Contents: seq<T>

    /** The record's fields at this moment, as a value. */
    ghost function Snapshot(): Layout<T>
      reads this`data, this`nexts, this`prevs, this`elemSize, this`size, this`capacity
      reads this`firstFree, this`head, this`tail, this`normalized, data, nexts, prevs
    {
      Layout(data[..], nexts[..], prevs[..], elemSize, size, capacity, firstFree, head, tail, normalized)
    }

    /** The record is well formed, its arrays are three distinct blocks, and
        element k of `Contents` is stored in slot `Live[k]`. */
    ghost predicate Valid()
      reads this, data, nexts, prevs
    {
      && data as object != nexts && data as object != prevs && nexts != prevs
      && capacity < SlotLimit
      && WellFormed(Snapshot(), Live, Free, Contents)
    }

    /** `list_remove_first_free` cannot make room: the list is full and
        `list_change_capacity` fails to allocate arrays CAPACITY_COEFF times
        as large, either because the allocator refuses (`allocOk` false) or
        because they would not fit in the address space. */
    ghost predicate CannotGrow(allocOk: bool)
      reads this
    {
      size == capacity && (!allocOk || SlotLimit <= capacity * CapacityCoeff + 1)
    }

    /** How taking a slot changes the record: one more element; a list that
        had a free slot keeps its arrays and capacity and loses the first slot
        of its free chain; a full list grows to CAPACITY_COEFF times its
        capacity plus the sentinel, and its free chain is the new slots after
        the one taken. */
    twostate predicate TookSlot()
      reads this
    {
      && size == old(size) + 1 && elemSize == old(elemSize)
      && if old(size) < old(capacity) then
           && capacity == old(capacity) && data == old(data) && nexts == old(nexts) && prevs == old(prevs)
           && |old(Free)| > 0 && Free == old(Free)[1..]
         else
           && capacity == old(capacity) * CapacityCoeff + 1
           && old(capacity) + 1 <= capacity && Free == Range(old(capacity) + 1, capacity)
    }

    /** The body of `list_create` once its allocations have succeeded: slot 0
        is the sentinel and every other slot joins the free chain in order. */
    constructor Init(capacity: nat, elemSize: nat)
      requires 1 <= capacity < SlotLimit && 1 <= elemSize
      ensures Valid() && fresh(data) && fresh(nexts) && fresh(prevs)
      ensures Contents == [] && Live == [] && Free == Range(1, capacity)
      ensures this.capacity == capacity && this.elemSize == elemSize && size == 1
      ensures head == 0 && tail == 0 && firstFree == 1 && normalized
    {
      var d := new T[capacity];
      var n := new nat[capacity];
      var p := new nat[capacity];
      n[0] := 0;
      p[0] := 0;
      var i := 1;
      while i < capacity
        invariant 1 <= i <= capacity
        invariant n[0] == 0 && p[0] == 0
        invariant forall s :: 1 <= s < i ==> n[s] == (s + 1) % capacity && p[s] == s
      {
        n[i] := (i + 1) % capacity;
        p[i] := i;
        i := i + 1;
      }
      data, nexts, prevs := d, n, p;
      this.elemSize := elemSize;
      size := 1;
      this.capacity := capacity;
      firstFree := 1;
      head := 0;
      tail := 0;
      normalized := true;
      Live := [];
      Free := Range(1, capacity);
      Contents := [];
      new;
      OrderedRepresents(Snapshot());
    }

    /** `list_create`: no list for a zero element size or when an allocation
        fails; otherwise an empty list with room for `startCapacity` elements.
        `allocOk` stands for the outcome of the allocator. A start capacity
        of SIZE_MAX, whose increment wraps to 0, is not modelled. */
    static method Create(startCapacity: nat, elemSize: nat, allocOk: bool) returns (lst: List?<T>)
      requires startCapacity < SizeLimit - 1
      ensures lst == null <==> elemSize == 0 || !allocOk || SlotLimit <= startCapacity + 1
      ensures lst != null ==> && fresh(lst) && fresh(lst.data) && fresh(lst.nexts) && fresh(lst.prevs)
                              && lst.Valid() && lst.Contents == []
                              && lst.capacity == startCapacity + 1 && lst.normalized
                              && lst.Free == Range(1, startCapacity + 1) && lst.elemSize == elemSize
    {
      if elemSize == 0 || !allocOk || SlotLimit <= startCapacity + 1 {
        return null;
      }
      lst := new List.Init(startCapacity + 1, elemSize);
    }

    /** `list_check_iterator`: the sentinel, or a slot whose `prevs` entry
        does not carry the free mark. */
    function CheckIterator(it: Iterator): bool
      reads this, prevs
      requires prevs.Length == capacity
    {
      it == 0 || (it < capacity && prevs[it] != it)
    }

    /** On a well-formed list the iterators that pass the check are exactly
        the sentinel and the slots of elements. */
    lemma CheckIteratorMeansLive(it: Iterator)
      requires Valid()
      ensures CheckIterator(it) <==> it == 0 || it in Live
    {
      NoSentinel(Live, capacity);
      if 0 < it < capacity {
        FreeMarker(Snapshot(), Live, Free, it);
      }
    }

    /** An iterator that passes the check and is on an element names a slot
        of the list. */
    lemma OnElementMeansLive(it: Iterator)
      requires Valid()
      ensures CheckIterator(it) && OnElement(it) <==> it in Live
    {
      CheckIteratorMeansLive(it);
      NoSentinel(Live, capacity);
    }

    /** `list_get`: the payload in the iterator's slot, none for an iterator
        that fails the check; the sentinel yields its scratch payload. */
    function Get(it: Iterator): (r: Option<T>)
      reads this, data, nexts, prevs
      requires Valid()
      ensures r == None <==> it != 0 && it !in Live
      ensures it == 0 ==> r == Some(data[0])
      ensures it in Live ==> r == Some(Contents[IndexOf(Live, it)])
    {
      CheckIteratorMeansLive(it);
      if !CheckIterator(it) then None else Some(data[it])
    }

    /** `list_next`: the slot of the following element (0 after the last);
        0 for the sentinel; the error code LIST_BAD_ITERATOR, returned as an
        iterator, for a slot holding no element. */
    function Next(it: Iterator): (r: Iterator)
      reads this, data, nexts, prevs
      requires Valid()
      ensures it == 0 ==> r == 0
      ensures it in Live ==> r == NextOf(Live, IndexOf(Live, it))
      ensures it != 0 && it !in Live ==> r == BadIterator.Code()
    {
      CheckIteratorMeansLive(it);
      if !CheckIterator(it) then BadIterator.Code() else if it != 0 then nexts[it] else 0
    }

    /** `list_prev`: the slot of the preceding element (0 before the first),
        otherwise as `Next`. */
    function Prev(it: Iterator): (r: Iterator)
      reads this, data, nexts, prevs
      requires Valid()
      ensures it == 0 ==> r == 0
      ensures it in Live ==> r == PrevOf(Live, IndexOf(Live, it))
      ensures it != 0 && it !in Live ==> r == BadIterator.Code()
    {
      CheckIteratorMeansLive(it);
      if !CheckIterator(it) then BadIterator.Code() else if it != 0 then prevs[it] else 0
    }

    /** `list_head`: the slot of the first element, 0 for an empty list. */
    function Head(): (it: Iterator)
      reads this, data, nexts, prevs
      requires Valid()
      ensures Contents == [] ==> it == 0
      ensures Contents != [] ==> it == Live[0]
    {
      head
    }

    /** `list_tail`: the slot of the last element, 0 for an empty list. */
    function Tail(): (it: Iterator)
      reads this, data, nexts, prevs
      requires Valid()
      ensures Contents == [] ==> it == 0
      ensures Contents != [] ==> it == Live[|Live| - 1]
    {
      tail
    }

    /** `list_size`: the number of elements (the record counts the sentinel). */
    function Size(): (n: nat)
      reads this, data, nexts, prevs
      requires Valid()
      ensures n == |Contents|
    {
      size - 1
    }

    /** `list_capacity`: how many elements fit before the arrays must grow. */
    function Capacity(): (n: nat)
      reads this, data, nexts, prevs
      requires Valid()
      ensures n == |Contents| + |Free|
    {
      capacity - 1
    }

    /** `list_is_normalized`: when set, element k sits in slot k + 1. */
    function IsNormalized(): (b: bool)
      reads this, data, nexts, prevs
      requires Valid()
      ensures b ==> forall k :: 0 <= k < |Live| ==> Live[k] == k + 1
    {
      normalized
    }

    /** `list_verify` on a record whose links stay inside its arrays: the
        checks of `VerifyLayout`, the two walks done by loops; a well-formed
        list always passes. */
    method Verify() returns (e: ListError)
      requires Addressable(Snapshot())
      ensures e == VerifyLayout(Snapshot())
      ensures Valid() ==> e == NoErr
    {
      ghost var l := Snapshot();
      assert nexts.Length == capacity && prevs.Length == capacity;
      assert Valid() ==> VerifyLayout(l) == NoErr by {
        if Valid() {
          RepresentsVerifies(l, Live, Free);
        }
      }
      if size == 0 || capacity < size {
        return BadCapacity;
      }
      if elemSize == 0 {
        return BadElemSize;
      }
      if (firstFree >= capacity || prevs[firstFree] != firstFree) && capacity != 1 && firstFree != 0 {
        return BadFirstFreeElem;
      }
      if head >= capacity || (size == 1 && head != 0) {
        return BadHeadIterator;
      }
      if tail >= capacity || (size == 1 && tail != 0) {
        return BadTailIterator;
      }
      if capacity == 1 {
        return NoErr;
      }
      var freeOk := FreeFieldsOk();
      if !freeOk {
        return BadFreeFields;
      }
      var busyOk := BusyFieldsOk();
      if !busyOk {
        return BadBusyFields;
      }
      if prevs[0] != tail {
        return BadBusyFields;
      }
      return NoErr;
    }

    /** The walk of `list_verify` along the free chain. */
    method FreeFieldsOk() returns (ok: bool)
      requires Addressable(Snapshot()) && size <= capacity && firstFree < capacity
      ensures ok == FreeWalk(Snapshot(), firstFree, 0)
    {
      ghost var l := Snapshot();
      assert nexts.Length == capacity && prevs.Length == capacity;
      var f: nat := firstFree;
      var freeAmount: nat := 0;
      while f != 0
        invariant f < capacity
        invariant FreeWalk(l, f, freeAmount) == FreeWalk(l, firstFree, 0)
        decreases capacity - size + 1 - freeAmount
      {
        if freeAmount > capacity - size || prevs[f] != f || nexts[f] == f {
          return false;
        }
        freeAmount := freeAmount + 1;
        f := nexts[f];
      }
      return true;
    }

    /** The walk of `list_verify` along the live chain. */
    method BusyFieldsOk() returns (ok: bool)
      requires Addressable(Snapshot()) && head < capacity
      ensures ok == BusyWalk(Snapshot(), head, 0)
    {
      ghost var l := Snapshot();
      assert nexts.Length == capacity && prevs.Length == capacity;
      var it: nat := head;
      var elems: nat := 0;
      while it != 0
        invariant it < capacity
        invariant BusyWalk(l, it, elems) == BusyWalk(l, head, 0)
        decreases size - elems
      {
        if elems >= size || it != nexts[prevs[it]] || it != prevs[nexts[it]] {
          return false;
        }
        elems := elems + 1;
        it := nexts[it];
      }
      return true;
    }

    /** `list_swap_vals`: the payloads of slots a and b change places, the
        sentinel's slot 0 serving as the scratch cell. */
    method SwapVals(a: nat, b: nat)
      requires 0 < a < data.Length && 0 < b < data.Length
      modifies data
      ensures data[..] == SwapData(old(data[..]), a, b)
    {
      data[0] := data[a];
      data[a] := data[b];
      data[b] := data[0];
    }

    /** One step of the renumbering in `list_normalize` when slot i does not
        hold the i-th element yet: that element, in slot `it`, trades slots
        with whatever slot i holds, and the links of both are rewritten.
        Returns the slot of the (i + 1)-th element. */
    method MoveIntoPlace(i: nat, it: nat) returns (following: nat)
      requires data as object != nexts && data as object != prevs && nexts != prevs
      requires Sized(Snapshot()) && 0 < i < capacity && 0 < it < capacity && 1 <= size
      requires prevs[i] < capacity && (prevs[i] != i ==> nexts[i] < capacity) && nexts[it] < capacity
      modifies data, nexts, prevs
      ensures Snapshot() == RelocateStep(old(Snapshot()), i, it)
      ensures following == if old(nexts[it]) == i then it else old(nexts[it])
    {
      var next := nexts[it];
      var p := prevs[i];
      var q := nexts[i];
      SwapVals(i, it);
      RelinkNexts(p, q, i, it);
      RelinkPrevs(p, q, i, it);
      following := if next == i then it else next;
    }

    /** The forward links of the move: the slot `it` takes over the links
        slot i had, and slot i points at slot i + 1. */
    method RelinkNexts(p: nat, q: nat, i: nat, it: nat)
      requires i < nexts.Length && it < nexts.Length && p < nexts.Length && 1 <= size
      modifies nexts
      ensures nexts[..] == RelocNexts(old(nexts[..]), p, q, i, it, size)
    {
      if p != i {
        nexts[it] := q;
        if p != it {
          nexts[p] := it;
        }
      }
      nexts[i] := (i + 1) % size;
    }

    /** The backward links of the same move: slot i points back at slot i - 1. */
    method RelinkPrevs(p: nat, q: nat, i: nat, it: nat)
      requires 1 <= i < prevs.Length && it < prevs.Length && (p != i ==> q < prevs.Length)
      modifies prevs
      ensures prevs[..] == RelocPrevs(old(prevs[..]), p, q, i, it)
    {
      if p == i {
        prevs[it] := it;
      } else {
        prevs[it] := if p == it then i else p;
        if q != 0 {
          prevs[q] := it;
        }
      }
      prevs[i] := i - 1;
    }

    /** One pass of the renumbering loop of `list_normalize`: the i-th
        element, found in slot `it`, is brought into slot i (moving whatever
        slot i held into slot `it`), and slot i gets its final links. `live`
        tracks the slots of the elements; returns the slot of the next one. */
    method RenumberStep(i: nat, it: nat, ghost live: seq<nat>) returns (following: nat, ghost live': seq<nat>)
      requires data as object != nexts && data as object != prevs && nexts != prevs
      requires NormInv(Snapshot(), live, Contents, i, it) && i < size
      modifies data, nexts, prevs
      ensures NormInv(Snapshot(), live', Contents, i + 1, following)
    {
      ghost var before := Snapshot();
      if i == it {
        AdvanceKeeps(before, live, Contents, i);
        following := nexts[it];
        nexts[i] := (i + 1) % size;
        prevs[i] := i - 1;
        assert nexts[..] == before.nexts[i := (i + 1) % size];
        assert prevs[..] == before.prevs[i := i - 1];
        assert Snapshot() == AdvanceStep(before, i);
        live' := live;
      } else {
        live' := RelocateKeeps(before, live, Contents, i, it);
        following := MoveIntoPlace(i, it);
      }
    }

    /** The renumbering loop of `list_normalize`: for i = 1 .. size - 1 the
        i-th element of the list is brought into slot i. Afterwards slots
        1 .. size - 1 hold the elements in order, linked in order. */
    method Renumber()
      requires Valid() && size >= 2
      modifies data, nexts, prevs
      ensures nexts[1..size] == OrderedNexts(size, capacity)[1..size]
      ensures prevs[1..size] == OrderedPrevs(size, capacity)[1..size]
      ensures data[1..size] == Contents
    {
      ghost var live := Live;
      NormStart(Snapshot(), Live, Free, Contents);
      var it := head;
      var i := 1;
      while i < size
        invariant NormInv(Snapshot(), live, Contents, i, it)
        decreases size - i
      {
        it, live := RenumberStep(i, it, live);
        i := i + 1;
      }
      NormEnd(Snapshot(), live, Contents, it);
    }

    /** `list_normalize`, with the renumbering step written so that it keeps
        every link consistent, and with the free chain of an empty list
        rebuilt too: afterwards element k sits in slot k + 1 and the free
        slots follow in increasing order. */
    method Normalize()
      requires Valid()
      modifies this, data, nexts, prevs
      ensures Valid() && normalized
      ensures Contents == old(Contents) && Live == Range(1, size) && Free == Range(size, capacity)
      ensures size == old(size) && capacity == old(capacity) && elemSize == old(elemSize)
      ensures data == old(data) && nexts == old(nexts) && prevs == old(prevs)
      ensures old(normalized) ==> unchanged(this) && unchanged(data, nexts, prevs)
    {
      if normalized {
        InOrderRanges(size, Live, Free, capacity);
        return;
      }
      RelinkInOrder();
      SetOrdered();
    }

    /** The field writes that end `list_normalize`, once the arrays carry the
        ordered links: head, tail and first_free of the ordered layout. */
    method SetOrdered()
      requires data as object != nexts && data as object != prevs && nexts != prevs
      requires 1 <= size <= capacity < SlotLimit && 1 <= elemSize && data.Length == capacity
      requires nexts[..] == OrderedNexts(size, capacity) && prevs[..] == OrderedPrevs(size, capacity)
      requires data[1..size] == Contents
      modifies this
      ensures Valid() && normalized && Live == Range(1, size) && Free == Range(size, capacity)
      ensures data == old(data) && nexts == old(nexts) && prevs == old(prevs)
      ensures size == old(size) && capacity == old(capacity) && elemSize == old(elemSize)
      ensures Contents == old(Contents)
    {
      var first := if size < capacity || size == 1 then size else 0;
      ghost var r := Layout(data[..], nexts[..], prevs[..], elemSize, size, capacity, first, if size > 1 then 1 else 0, size - 1, true);
      LinksOrdered(r);
      OrderedRepresents(r);
      HoldsOrdered(r.data, Contents, size);
      Assign(data, nexts, prevs, size, capacity, first, if size > 1 then 1 else 0, size - 1, true,
             Range(1, size), Range(size, capacity), Contents);
    }

    /** The array writes of `list_normalize`: the renumbering, the sentinel's
        links to the first and last slot, and the free slots rethreaded in
        increasing order. */
    method RelinkInOrder()
      requires Valid()
      modifies data, nexts, prevs
      ensures nexts[..] == OrderedNexts(size, capacity) && prevs[..] == OrderedPrevs(size, capacity)
      ensures data[1..size] == Contents
    {
      if size > 1 {
        Renumber();
      } else {
        assert Contents == [];
      }
      ghost var renumbered, renumberedPrevs := nexts[..], prevs[..];
      ThreadSlots(nexts, prevs, size);
      ghost var threaded, threadedPrevs := nexts[..], prevs[..];
      nexts[0] := if size > 1 then 1 else 0;
      prevs[0] := size - 1;
      EqualByParts(threaded, OrderedNexts(size, capacity), renumbered, size);
      EqualByParts(threadedPrevs, OrderedPrevs(size, capacity), renumberedPrevs, size);
    }

    /** The last slot of the free chain, reached by walking `nexts` from
        first_free as `list_change_capacity` does. */
    method FreeChainEnd() returns (last: nat)
      requires Valid() && Free != []
      ensures last == Free[|Free| - 1]
    {
      last := firstFree;
      ghost var j := 0;
      while nexts[last] != 0
        invariant j < |Free| && last == Free[j]
        decreases |Free| - j
      {
        assert nexts[Free[j]] == NextOf(Free, j);
        j := j + 1;
        last := nexts[last];
      }
      assert nexts[Free[j]] == NextOf(Free, j);
    }

    /** Stores new arrays and their length in the record. */
    method SetStorage(d: array<T>, nx: array<nat>, pv: array<nat>, capacity': nat)
      modifies this`data, this`nexts, this`prevs, this`capacity
      ensures data == d && nexts == nx && prevs == pv && capacity == capacity'
    {
      data, nexts, prevs, capacity := d, nx, pv, capacity';
    }

    /** Stores new bookkeeping values in the record. */
    method SetBookkeeping(size': nat, firstFree': nat, head': nat, tail': nat, normalized': bool)
      modifies this`size, this`firstFree, this`head, this`tail, this`normalized
      ensures size == size' && firstFree == firstFree' && head == head' && tail == tail' && normalized == normalized'
    {
      size, firstFree, head, tail, normalized := size', firstFree', head', tail', normalized';
    }

    /** Records what the arrays now encode. */
    method SetAbstraction(ghost live: seq<nat>, ghost free: seq<nat>, ghost contents: seq<T>)
      modifies this`Live, this`Free, this`Contents
      ensures Live == live && Free == free && Contents == contents
    {
      Live, Free, Contents := live, free, contents;
    }

    /** Stores new values in every field of the record but the element size. */
    method Assign(d: array<T>, nx: array<nat>, pv: array<nat>, size': nat, capacity': nat, firstFree': nat,
                  head': nat, tail': nat, normalized': bool,
                  ghost live: seq<nat>, ghost free: seq<nat>, ghost contents: seq<T>)
      modifies this`data, this`nexts, this`prevs, this`capacity
      modifies this`size, this`firstFree, this`head, this`tail, this`normalized
      modifies this`Live, this`Free, this`Contents
      ensures data == d && nexts == nx && prevs == pv && capacity == capacity'
      ensures size == size' && firstFree == firstFree' && head == head' && tail == tail' && normalized == normalized'
      ensures Live == live && Free == free && Contents == contents
    {
      SetStorage(d, nx, pv, capacity');
      SetBookkeeping(size', firstFree', head', tail', normalized');
      SetAbstraction(live, free, contents);
    }

    /** Sets first_free and the free slots. */
    method SetFree(firstFree': nat, ghost free: seq<nat>)
      modifies this`firstFree, this`Free
      ensures firstFree == firstFree' && Free == free
    {
      firstFree := firstFree';
      Free := free;
    }

    /** The list takes over new arrays of `capacity'` slots that, with the
        new first_free and free slots, form a well-formed record holding
        the same elements along the same live chain. */
    method Install(d: array<T>, nx: array<nat>, pv: array<nat>, capacity': nat, firstFree': nat, ghost free: seq<nat>)
      requires d as object != nx && d as object != pv && nx != pv && capacity' < SlotLimit
      requires WellFormed(Layout(d[..], nx[..], pv[..], elemSize, size, capacity', firstFree', head, tail, normalized),
                          Live, free, Contents)
      modifies this`data, this`nexts, this`prevs, this`capacity, this`firstFree, this`Free
      ensures Valid() && data == d && nexts == nx && prevs == pv && capacity == capacity'
      ensures firstFree == firstFree' && Free == free
      ensures Live == old(Live) && Contents == old(Contents) && size == old(size) && elemSize == old(elemSize)
      ensures normalized == old(normalized) && head == old(head) && tail == old(tail)
    {
      SetStorage(d, nx, pv, capacity');
      SetFree(firstFree', free);
    }

    /** The arrays `list_change_capacity` builds when it grows the list to n
        slots: the old entries copied, the end of the free chain pointed at
        the old capacity when there is a free chain, and the new slots
        threaded in order. */
    method GrownArrays(n: nat) returns (d: array<T>, nx: array<nat>, pv: array<nat>)
      requires Valid() && capacity < n
      ensures fresh(d) && fresh(nx) && fresh(pv) && d as object != nx && d as object != pv && nx != pv
      ensures d.Length == n && nx.Length == n && pv.Length == n
      ensures d[..capacity] == data[..] && pv[..capacity] == prevs[..]
      ensures nx[..capacity] == if Free == [] then nexts[..] else nexts[..][Free[|Free| - 1] := capacity]
      ensures nx[capacity..] == OrderedNexts(capacity, n)[capacity..]
      ensures pv[capacity..] == OrderedPrevs(capacity, n)[capacity..]
    {
      d := Reallocated(data, n);
      nx := CopiedLinks(n);
      pv := Reallocated(prevs, n);
      ghost var links := nx[..capacity];
      ThreadSlots(nx, pv, capacity);
      assert nx[..capacity] == links;
    }

    /** The forward links copied into an array of n > capacity entries, the
        end of the free chain, when there is one, pointed at the old capacity. */
    method CopiedLinks(n: nat) returns (nx: array<nat>)
      requires Valid() && capacity < n
      ensures fresh(nx) && nx.Length == n
      ensures nx[..capacity] == if Free == [] then nexts[..] else nexts[..][Free[|Free| - 1] := capacity]
    {
      nx := Reallocated(nexts, n);
      if size < capacity {
        assert Free != [];
        var last := FreeChainEnd();
        nx[last] := capacity;
        assert nx[..capacity] == nexts[..][last := capacity];
      } else {
        assert Free == [];
      }
    }

    /** The growing branch of `list_change_capacity`: first_free falls back
        to the old capacity when the free chain is empty, and the list takes
        over the grown arrays. */
    method Grow(n: nat)
      requires Valid() && capacity < n < SlotLimit
      modifies this
      ensures Valid() && fresh(data) && fresh(nexts) && fresh(prevs)
      ensures capacity == n && Contents == old(Contents) && Live == old(Live)
      ensures Free == old(Free) + Range(old(capacity), n)
      ensures size == old(size) && elemSize == old(elemSize) && normalized == old(normalized)
      ensures head == old(head) && tail == old(tail)
    {
      ghost var l := Snapshot();
      var d, nx, pv := GrownArrays(n);
      var first := if firstFree != 0 then firstFree else size;
      ghost var r := Layout(d[..], nx[..], pv[..], elemSize, size, n, first, head, tail, normalized);
      assert r.data[..l.capacity] == l.data && r.prevs[..l.capacity] == l.prevs;
      GrowWellFormed(l, Live, Free, Contents, r);
      Install(d, nx, pv, n, first, Free + Range(capacity, n));
    }

    /** The arrays `list_change_capacity` builds when it keeps n <= capacity
        slots of an ordered list: the first n entries copied and, when free
        slots are cut off, the last kept one closing the free chain. */
    method ShrunkArrays(n: nat) returns (d: array<T>, nx: array<nat>, pv: array<nat>)
      requires Valid() && size <= n <= capacity
      ensures fresh(d) && fresh(nx) && fresh(pv) && d as object != nx && d as object != pv && nx != pv
      ensures d[..] == data[..n] && pv[..] == prevs[..n]
      ensures nx[..] == if size < n < capacity then nexts[..n][n - 1 := 0] else nexts[..n]
    {
      d := Reallocated(data, n);
      nx := Reallocated(nexts, n);
      pv := Reallocated(prevs, n);
      if size < n < capacity {
        nx[n - 1] := 0;
      }
    }

    /** The branch of `list_change_capacity` that keeps n < capacity slots
        of an ordered list: the arrays are cut to n entries, the last free
        slot closes the free chain, and first_free is 0 when no free slot
        is left. */
    method Shrink(n: nat)
      requires Valid() && normalized && size <= n < capacity
      modifies this
      ensures Valid() && fresh(data) && fresh(nexts) && fresh(prevs)
      ensures capacity == n && Contents == old(Contents) && size == old(size) && elemSize == old(elemSize)
      ensures normalized && Live == Range(1, size) && Free == Range(size, n)
    {
      var d, nx, pv := ShrunkArrays(n);
      var first := if size < n || size == 1 then size else 0;
      ShrinkWellFormed(Snapshot(), Live, Free, Contents, n,
                       Layout(d[..], nx[..], pv[..], elemSize, size, n, first, head, tail, normalized));
      Install(d, nx, pv, n, first, Range(size, n));
    }

    /** The branch of `list_change_capacity` that keeps the capacity: the
        list moves to fresh copies of its arrays and nothing else changes. */
    method Reallocate()
      requires Valid()
      modifies this`data, this`nexts, this`prevs, this`capacity
      ensures Valid() && fresh(data) && fresh(nexts) && fresh(prevs) && capacity == old(capacity)
      ensures data[..] == old(data[..]) && nexts[..] == old(nexts[..]) && prevs[..] == old(prevs[..])
      ensures Live == old(Live) && Free == old(Free) && Contents == old(Contents)
      ensures size == old(size) && elemSize == old(elemSize) && normalized == old(normalized)
      ensures head == old(head) && tail == old(tail)
    {
      var d, nx, pv := ShrunkArrays(capacity);
      assert d[..] == data[..] && nx[..] == nexts[..] && pv[..] == prevs[..];
      SetStorage(d, nx, pv, capacity);
    }

    /** `list_change_capacity` with the growing branch corrected: the
        requested capacity is incremented for the sentinel (with `size_t`
        wrap-around) and must cover the elements; a list that shrinks is
        normalized first; `allocOk` stands for the outcome of the three
        allocations. */
    method ChangeCapacity(newCapacity: nat, allocOk: bool) returns (err: ListError)
      requires Valid() && newCapacity < SizeLimit
      modifies this, data, nexts, prevs
      ensures Valid() && Contents == old(Contents) && size == old(size) && elemSize == old(elemSize)
      ensures var n := (newCapacity + 1) % SizeLimit;
              && (err == BadCapacity <==> n < old(size))
              && (err == AllocErr <==> old(size) <= n && (!allocOk || SlotLimit <= n))
              && (err == NoErr <==> old(size) <= n && allocOk && n < SlotLimit)
              && capacity == (if err == NoErr then n else old(capacity))
              && (err != BadCapacity && n < old(capacity) ==>
                    normalized && Live == Range(1, size) && Free == Range(size, capacity))
              && (err == NoErr && old(capacity) <= n ==>
                    && Live == old(Live) && Free == old(Free) + Range(old(capacity), n)
                    && normalized == old(normalized) && head == old(head) && tail == old(tail))
              && ((err != NoErr && old(capacity) <= n) || err == BadCapacity ==>
                    unchanged(this) && unchanged(data, nexts, prevs))
      ensures err == NoErr ==> fresh(data) && fresh(nexts) && fresh(prevs)
    {
      var n := (newCapacity + 1) % SizeLimit;
      if n < size {
        return BadCapacity;
      }
      if n < capacity {
        Normalize();
      }
      if !allocOk || SlotLimit <= n {
        return AllocErr;
      }
      Resize(n);
      return NoErr;
    }

    /** The allocations of `list_change_capacity` succeeded: the list moves
        into arrays of n slots. */
    method Resize(n: nat)
      requires Valid() && size <= n < SlotLimit && (n < capacity ==> normalized)
      modifies this
      ensures Valid() && fresh(data) && fresh(nexts) && fresh(prevs) && capacity == n
      ensures Contents == old(Contents) && size == old(size) && elemSize == old(elemSize)
      ensures n < old(capacity) ==> normalized && Live == Range(1, size) && Free == Range(size, n)
      ensures old(capacity) <= n ==>
                && Live == old(Live) && Free == old(Free) + Range(old(capacity), n)
                && normalized == old(normalized) && head == old(head) && tail == old(tail)
    {
      if capacity < n {
        Grow(n);
      } else if n < capacity {
        Shrink(n);
      } else {
        Reallocate();
        assert Free == Free + Range(capacity, n);
      }
    }

    /** Stores the bookkeeping fields of a record whose arrays already hold a
        well-formed list of `contents`. */
    method Commit(size': nat, firstFree': nat, head': nat, tail': nat, normalized': bool,
                  ghost live: seq<nat>, ghost free: seq<nat>, ghost contents: seq<T>)
      requires data as object != nexts && data as object != prevs && nexts != prevs && capacity < SlotLimit
      requires WellFormed(Layout(data[..], nexts[..], prevs[..], elemSize, size', capacity, firstFree', head', tail', normalized'),
                          live, free, contents)
      modifies this`size, this`firstFree, this`head, this`tail, this`normalized
      modifies this`Live, this`Free, this`Contents
      ensures Valid()
      ensures size == size' && firstFree == firstFree' && head == head' && tail == tail' && normalized == normalized'
      ensures Live == live && Free == free && Contents == contents
      ensures data == old(data) && nexts == old(nexts) && prevs == old(prevs)
      ensures capacity == old(capacity) && elemSize == old(elemSize)
    {
      SetBookkeeping(size', firstFree', head', tail', normalized');
      SetAbstraction(live, free, contents);
    }

    /** Counts the taken slot and moves first_free along the free chain. */
    method SetTaken(size': nat, firstFree': nat, ghost free: seq<nat>)
      modifies this`size, this`firstFree, this`Free
      ensures size == size' && firstFree == firstFree' && Free == free
    {
      size, firstFree, Free := size', firstFree', free;
    }

    /** The growth at the start of `list_remove_first_free`: a full list
        grows to CAPACITY_COEFF times its capacity, an error being passed on;
        afterwards first_free names a free slot, the first one the growth
        added when the list was full. */
    method EnsureRoom(allocOk: bool) returns (err: ListError)
      requires Valid()
      modifies this, data, nexts, prevs
      ensures Valid()
      ensures err == NoErr || err == AllocErr
      ensures err == AllocErr <==>
                old(CannotGrow(allocOk))
      ensures err == AllocErr ==> unchanged(this) && unchanged(data, nexts, prevs)
      ensures data == old(data) || fresh(data)
      ensures nexts == old(nexts) || fresh(nexts)
      ensures prevs == old(prevs) || fresh(prevs)
      ensures err == NoErr ==>
                && size < capacity && Live == old(Live) && Contents == old(Contents)
                && normalized == old(normalized) && elemSize == old(elemSize)
                && firstFree == (if old(size) < old(capacity) then old(firstFree) else old(capacity))
      ensures old(size) < old(capacity) ==> err == NoErr && unchanged(this) && unchanged(data, nexts, prevs)
      ensures err == NoErr ==>
                && capacity == (if old(size) < old(capacity) then old(capacity) else old(capacity) * CapacityCoeff + 1)
                && Free == (if old(size) < old(capacity) then old(Free) else Range(old(capacity), capacity))
                && size == old(size) && head == old(head) && tail == old(tail)
    {
      if size == capacity {
        var c := capacity;
        var n := c * CapacityCoeff;
        assert n == 2 * c && (n + 1) % SizeLimit == n + 1;
        assert Free == [];
        err := ChangeCapacity(n, allocOk);
        if err != NoErr {
          return;
        }
        assert Free == [] + Range(c, capacity) == Range(c, capacity);
        assert firstFree == Free[0] == c;
      }
      err := NoErr;
    }

    /** The rest of `list_remove_first_free`: the first slot of the free
        chain is taken and counted. The element it will hold is not linked
        yet: the record is left in the state `Popped` describes. */
    method TakeSlot() returns (slot: nat)
      requires Valid() && size < capacity
      modifies this`size, this`firstFree, this`Free
      ensures data as object != nexts && data as object != prevs && nexts != prevs && capacity < SlotLimit
      ensures Popped(Snapshot(), Live, Free, slot) && Holds(data[..], Live, Contents)
      ensures slot == old(firstFree) && size == old(size) + 1 && Free == old(Free)[1..]
      ensures Live == old(Live) && Contents == old(Contents) && normalized == old(normalized) && elemSize == old(elemSize)
      ensures data == old(data) && nexts == old(nexts) && prevs == old(prevs)
    {
      ghost var l := Snapshot();
      TakeFirstFree(l, Live, Free, Contents);
      slot := firstFree;
      SetTaken(size + 1, nexts[firstFree], Free[1..]);
      assert Snapshot() == l.(size := l.size + 1, firstFree := l.nexts[slot]);
    }

    /** `list_remove_first_free`: room is made if the list is full, then the
        first free slot is taken. */
    method RemoveFirstFree(allocOk: bool) returns (err: ListError, slot: nat)
      requires Valid()
      modifies this, data, nexts, prevs
      ensures err == NoErr || err == AllocErr
      ensures err == AllocErr <==>
                old(CannotGrow(allocOk))
      ensures err == AllocErr ==> unchanged(this) && unchanged(data, nexts, prevs)
      ensures data == old(data) || fresh(data)
      ensures nexts == old(nexts) || fresh(nexts)
      ensures prevs == old(prevs) || fresh(prevs)
      ensures err == NoErr ==>
                && data as object != nexts && data as object != prevs && nexts != prevs && capacity < SlotLimit
                && Popped(Snapshot(), Live, Free, slot) && Holds(data[..], Live, Contents)
                && Live == old(Live) && Contents == old(Contents)
                && normalized == old(normalized) && elemSize == old(elemSize)
                && slot == (if old(size) < old(capacity) then old(firstFree) else old(capacity))
      ensures err == NoErr ==> TookSlot() && head == old(head) && tail == old(tail)
      ensures old(size) < old(capacity) ==> err == NoErr
    {
      err := EnsureRoom(allocOk);
      if err != NoErr {
        return err, 0;
      }
      ghost var free := Free;
      assert old(size) == old(capacity) ==> free[1..] == Range(old(capacity) + 1, capacity) by {
        if old(size) == old(capacity) {
          RangeTail(old(capacity), capacity);
        }
      }
      assert old(size) < old(capacity) ==> free == old(Free) && |free| > 0;
      slot := TakeSlot();
    }

    /** The array writes of `list_insert_after`: the value goes into `slot`,
        which is linked in between `it` and its successor. With the new head,
        tail and normalized flag, the arrays then hold the list with the value
        inserted after `it`. */
    method Splice(it: nat, slot: nat, value: T, ghost l: Layout<T>, ghost live: seq<nat>, ghost free: seq<nat>,
                  ghost contents: seq<T>)
      requires data as object != nexts && data as object != prevs && nexts != prevs
      requires l.data == data[..] && l.nexts == nexts[..] && l.prevs == prevs[..]
      requires Popped(l, live, free, slot) && Holds(l.data, live, contents) && (it == 0 || it in live)
      modifies data, nexts, prevs
      ensures it < nexts.Length && slot < nexts.Length
      ensures nexts[slot] == old(nexts[it]) && prevs[slot] == it
      ensures WellFormed(Layout(data[..], nexts[..], prevs[..], l.elemSize, l.size, l.capacity, l.firstFree,
                                if it == 0 then slot else l.head, if old(nexts[it]) == 0 then slot else l.tail,
                                l.normalized && old(nexts[it]) == 0),
                         Insert(live, PositionAfter(live, it), slot), free, Insert(contents, PositionAfter(live, it), value))
      ensures old(nexts[it]) == 0 <==> PositionAfter(live, it) == |live|
    {
      LinkAfterWellFormed(l, live, free, contents, it, slot, value);
      SpliceWrites(it, slot, value);
      assert Layout(data[..], nexts[..], prevs[..], l.elemSize, l.size, l.capacity, l.firstFree,
                    if it == 0 then slot else l.head, if old(nexts[it]) == 0 then slot else l.tail,
                    l.normalized && old(nexts[it]) == 0) == LinkAfter(l, it, slot, value);
    }

    /** The writes themselves, in the order `list_insert_after` makes them. */
    method SpliceWrites(it: nat, slot: nat, value: T)
      requires data as object != nexts && data as object != prevs && nexts != prevs
      requires it < nexts.Length && slot < nexts.Length && slot < data.Length && it != slot
      requires prevs.Length == nexts.Length && nexts[it] < prevs.Length && nexts[it] != slot
      modifies data, nexts, prevs
      ensures data[..] == old(data[..])[slot := value]
      ensures nexts[..] == old(nexts[..])[slot := old(nexts[it])][it := slot]
      ensures prevs[..] == old(prevs[..])[slot := it][old(nexts[it]) := slot]
      ensures nexts[slot] == old(nexts[it]) && prevs[slot] == it
    {
      data[slot] := value;
      nexts[slot] := nexts[it];
      nexts[it] := slot;
      prevs[slot] := it;
      prevs[nexts[slot]] := slot;
    }

    /** `list_insert_after`: the value becomes the element following `it`
        (the first element when `it` is the sentinel); an iterator failing
        the check is refused, and a failed growth leaves the list as it was.
        The list stays normalized only when the value is appended. */
    method InsertAfter(it: Iterator, value: T, allocOk: bool) returns (err: ListError)
      requires Valid()
      modifies this, data, nexts, prevs
      ensures Valid()
      ensures data == old(data) || fresh(data)
      ensures nexts == old(nexts) || fresh(nexts)
      ensures prevs == old(prevs) || fresh(prevs)
      ensures err == NoErr || err == BadIterator || err == AllocErr
      ensures err == BadIterator <==> it != 0 && it !in old(Live)
      ensures err == AllocErr <==> (it == 0 || it in old(Live)) && old(CannotGrow(allocOk))
      ensures err != NoErr ==> unchanged(this) && unchanged(data, nexts, prevs)
      ensures err == NoErr ==>
                var pos := PositionAfter(old(Live), it);
                && Contents == Insert(old(Contents), pos, value)
                && Live == Insert(old(Live), pos, if old(size) < old(capacity) then old(firstFree) else old(capacity))
                && normalized == (old(normalized) && pos == |old(Live)|)
      ensures err == NoErr ==> TookSlot()
    {
      CheckIteratorMeansLive(it);
      if !CheckIterator(it) {
        return BadIterator;
      }
      err := InsertTaken(it, value, allocOk);
    }

    /** `list_insert_after` once the iterator has passed the check: a slot
        is taken from the free chain, growing the arrays when there is none,
        and linked in after `it`. */
    method InsertTaken(it: Iterator, value: T, allocOk: bool) returns (err: ListError)
      requires Valid() && (it == 0 || it in Live)
      modifies this, data, nexts, prevs
      ensures Valid()
      ensures data == old(data) || fresh(data)
      ensures nexts == old(nexts) || fresh(nexts)
      ensures prevs == old(prevs) || fresh(prevs)
      ensures err == NoErr || err == AllocErr
      ensures err == AllocErr <==> old(CannotGrow(allocOk))
      ensures err != NoErr ==> unchanged(this) && unchanged(data, nexts, prevs)
      ensures err == NoErr ==>
                var pos := PositionAfter(old(Live), it);
                && Contents == Insert(old(Contents), pos, value)
                && Live == Insert(old(Live), pos, if old(size) < old(capacity) then old(firstFree) else old(capacity))
                && normalized == (old(normalized) && pos == |old(Live)|)
      ensures err == NoErr ==> TookSlot()
    {
      var slot;
      err, slot := RemoveFirstFree(allocOk);
      if err != NoErr {
        return;
      }
      LinkIn(it, slot, value);
    }

    /** The links `list_insert_after` writes once `slot` has been taken: the
        value goes into the slot, which follows `it` in the list. */
    method LinkIn(it: Iterator, slot: nat, value: T)
      requires data as object != nexts && data as object != prevs && nexts != prevs && capacity < SlotLimit
      requires Popped(Snapshot(), Live, Free, slot) && Holds(data[..], Live, Contents)
      requires it == 0 || it in Live
      modifies data, nexts, prevs
      modifies this`size, this`firstFree, this`head, this`tail, this`normalized
      modifies this`Live, this`Free, this`Contents
      ensures Valid() && data == old(data) && nexts == old(nexts) && prevs == old(prevs)
      ensures var pos := PositionAfter(old(Live), it);
              && Contents == Insert(old(Contents), pos, value)
              && Live == Insert(old(Live), pos, slot)
              && normalized == (old(normalized) && pos == |old(Live)|)
      ensures Free == old(Free) && size == old(size) && capacity == old(capacity) && elemSize == old(elemSize)
    {
      ghost var pos := PositionAfter(Live, it);
      Splice(it, slot, value, Snapshot(), Live, Free, Contents);
      var tail' := if nexts[slot] == 0 then slot else tail;
      var normalized' := if nexts[slot] == 0 then normalized else false;
      var head' := if prevs[slot] == 0 then slot else head;
      Commit(size, firstFree, head', tail', normalized', Insert(Live, pos, slot), Free, Insert(Contents, pos, value));
    }

    /** `list_insert_before`: inserts after the predecessor of `it`, so the
        value takes the place of the element at `it`; before the sentinel
        means at the end. For a free slot the predecessor entry is the slot
        itself, which the check then refuses. */
    method InsertBefore(it: Iterator, value: T, allocOk: bool) returns (err: ListError)
      requires Valid() && it < capacity
      modifies this, data, nexts, prevs
      ensures Valid()
      ensures data == old(data) || fresh(data)
      ensures nexts == old(nexts) || fresh(nexts)
      ensures prevs == old(prevs) || fresh(prevs)
      ensures err == NoErr || err == BadIterator || err == AllocErr
      ensures err == BadIterator <==> it !in old(Live) && it != 0
      ensures err == AllocErr <==> (it == 0 || it in old(Live)) && old(CannotGrow(allocOk))
      ensures err != NoErr ==> unchanged(this) && unchanged(data, nexts, prevs)
      ensures err == NoErr && it == 0 ==> Contents == old(Contents) + [value]
      ensures err == NoErr && it != 0 ==> Contents == Insert(old(Contents), IndexOf(old(Live), it), value)
      ensures err == NoErr ==>
                var slot := if old(size) < old(capacity) then old(firstFree) else old(capacity);
                Live == if it == 0 then old(Live) + [slot] else Insert(old(Live), IndexOf(old(Live), it), slot)
      ensures err == NoErr ==> normalized == (old(normalized) && it == 0)
      ensures err == NoErr ==> TookSlot()
    {
      var before := prevs[it];
      PredecessorOf(it);
      InsertEnds(Contents, value);
      InsertEnds(Live, if size < capacity then firstFree else capacity);
      err := InsertAfter(before, value, allocOk);
    }

    /** The predecessor entry `list_insert_before` reads: for the sentinel the
        last element, for an element its predecessor in the list, and for a
        free slot the slot itself. */
    lemma PredecessorOf(it: Iterator)
      requires Valid() && it < capacity
      ensures prevs[0] == tail
      ensures prevs[it] == 0 || prevs[it] in Live <==> it == 0 || it in Live
      ensures it == 0 ==> PositionAfter(Live, prevs[it]) == |Live|
      ensures it in Live ==> PositionAfter(Live, prevs[it]) == IndexOf(Live, it)
    {
      NoSentinel(Live, capacity);
      if it == 0 {
        assert prevs[0] == LastOr0(Live);
        if Live != [] {
          IndexOfDistinct(Live, |Live| - 1);
        }
      } else if it in Live {
        var k := IndexOf(Live, it);
        assert prevs[Live[k]] == PrevOf(Live, k);
        PositionBefore(Live, k);
      } else {
        FreeMarker(Snapshot(), Live, Free, it);
      }
    }

    /** `list_insert_to_head`: the value becomes the first element. */
    method InsertToHead(value: T, allocOk: bool) returns (err: ListError)
      requires Valid()
      modifies this, data, nexts, prevs
      ensures Valid()
      ensures data == old(data) || fresh(data)
      ensures nexts == old(nexts) || fresh(nexts)
      ensures prevs == old(prevs) || fresh(prevs)
      ensures err == NoErr || err == AllocErr
      ensures err == AllocErr <==> old(CannotGrow(allocOk))
      ensures err != NoErr ==> unchanged(this) && unchanged(data, nexts, prevs)
      ensures err == NoErr ==> Contents == [value] + old(Contents)
      ensures err == NoErr ==>
                Live == [if old(size) < old(capacity) then old(firstFree) else old(capacity)] + old(Live)
      ensures err == NoErr ==> normalized == (old(normalized) && old(Contents) == [])
      ensures err == NoErr ==> TookSlot()
    {
      ghost var live, contents := Live, Contents;
      ghost var slot := if size < capacity then firstFree else capacity;
      NoSentinel(Live, capacity);
      if Live != [] {
        IndexOfDistinct(Live, 0);
      }
      assert head == 0 <==> live == [];
      assert head != 0 ==> IndexOf(live, head) == 0;
      InsertEnds(contents, value);
      InsertEnds(live, slot);
      err := InsertBefore(head, value, allocOk);
    }

    /** `list_insert_to_tail`: the value becomes the last element. */
    method InsertToTail(value: T, allocOk: bool) returns (err: ListError)
      requires Valid()
      modifies this, data, nexts, prevs
      ensures Valid()
      ensures data == old(data) || fresh(data)
      ensures nexts == old(nexts) || fresh(nexts)
      ensures prevs == old(prevs) || fresh(prevs)
      ensures err == NoErr || err == AllocErr
      ensures err == AllocErr <==> old(CannotGrow(allocOk))
      ensures err != NoErr ==> unchanged(this) && unchanged(data, nexts, prevs)
      ensures err == NoErr ==> Contents == old(Contents) + [value]
      ensures err == NoErr ==>
                Live == old(Live) + [if old(size) < old(capacity) then old(firstFree) else old(capacity)]
      ensures err == NoErr ==> normalized == old(normalized)
      ensures err == NoErr ==> TookSlot()
    {
      PredecessorOf(0);
      InsertEnds(Contents, value);
      err := InsertAfter(tail, value, allocOk);
    }

    /** The array writes of `list_erase`: slot s is unlinked from its
        neighbours and pushed on the front of the free chain. */
    method Unsplice(s: nat)
      requires nexts != prevs && s < nexts.Length && prevs.Length == nexts.Length
      requires nexts[s] < prevs.Length && prevs[s] < nexts.Length
      modifies nexts, prevs
      ensures nexts[..] == old(nexts[..])[old(prevs[s]) := old(nexts[s])][s := firstFree]
      ensures prevs[..] == old(prevs[..])[old(nexts[s]) := old(prevs[s])][s := s]
    {
      var next := nexts[s];
      var prev := prevs[s];
      nexts[prev] := next;
      prevs[next] := prev;
      nexts[s] := firstFree;
      prevs[s] := s;
    }

    /** `list_erase`: the element at `it` leaves the list and its slot heads
        the free chain; the returned iterator is its successor, or its
        predecessor when it was the last. The sentinel is accepted and erases
        nothing; an iterator failing the check is refused. The list stays
        normalized only when the last element is erased. */
    method Erase(it: Iterator) returns (err: ListError, cursor: Iterator)
      requires Valid()
      modifies this, nexts, prevs
      ensures Valid() && data == old(data) && nexts == old(nexts) && prevs == old(prevs)
      ensures err == NoErr || err == BadIterator
      ensures err == BadIterator <==> it != 0 && it !in old(Live)
      ensures it !in old(Live) ==> cursor == it && unchanged(this) && unchanged(nexts, prevs)
      ensures it in old(Live) ==>
                var k := IndexOf(old(Live), it);
                && Contents == Remove(old(Contents), k)
                && Live == Remove(old(Live), k) && Free == [it] + old(Free)
                && cursor == (if k + 1 < |old(Live)| then old(Live)[k + 1] else PrevOf(old(Live), k))
                && normalized == (old(normalized) && k + 1 == |old(Live)|)
    {
      CheckIteratorMeansLive(it);
      NoSentinel(Live, capacity);
      if !CheckIterator(it) {
        return BadIterator, it;
      }
      if it == 0 {
        return NoErr, 0;
      }
      ghost var k := IndexOf(Live, it);
      assert nexts[Live[k]] == NextOf(Live, k) && prevs[Live[k]] == PrevOf(Live, k);
      if k + 1 < |Live| {
        assert Live[k + 1] != 0;
      }
      var next := nexts[it];
      var prev := prevs[it];
      Detach(it, k);
      err := NoErr;
      cursor := if next != 0 then next else prev;
    }

    /** The writes of `list_erase` for the element at position k, in slot
        `it`: it is unlinked, its slot heads the free chain, and head and tail
        follow. */
    method Detach(it: Iterator, ghost k: nat)
      requires Valid() && k < |Live| && Live[k] == it
      modifies nexts, prevs
      modifies this`size, this`firstFree, this`head, this`tail, this`normalized
      modifies this`Live, this`Free, this`Contents
      ensures Valid()
      ensures Contents == Remove(old(Contents), k) && Live == Remove(old(Live), k) && Free == [it] + old(Free)
      ensures normalized == (old(normalized) && k + 1 == |old(Live)|)
    {
      ghost var l := Snapshot();
      UnlinkWellFormed(l, Live, Free, Contents, k);
      var next := nexts[it];
      var prev := prevs[it];
      Unsplice(it);
      var head' := if it == head then next else head;
      var tail' := if it == tail then prev else tail;
      var normalized' := if it == tail then normalized else false;
      assert Layout(data[..], nexts[..], prevs[..], elemSize, size - 1, capacity, it, head', tail', normalized')
             == Unlink(l, it);
      Commit(size - 1, it, head', tail', normalized', Remove(Live, k), [it] + Free, Remove(Contents, k));
    }

    /** `list_find`: the slot of the first element equal to the value (the
        byte comparison of `memcmp` is equality of payloads here), 0 when
        there is none. */
    method Find(value: T) returns (it: Iterator)
      requires Valid()
      ensures value in Contents ==> it == Live[IndexOf(Contents, value)]
      ensures value !in Contents ==> it == 0
    {
      NoSentinel(Live, capacity);
      it := head;
      ghost var k := 0;
      while it != 0
        invariant k <= |Live| && it == (if k < |Live| then Live[k] else 0)
        invariant forall j :: 0 <= j < k ==> Contents[j] != value
        decreases |Live| - k
      {
        assert data[Live[k]] == Contents[k] && nexts[Live[k]] == NextOf(Live, k);
        if data[it] == value {
          return;
        }
        it := nexts[it];
        k := k + 1;
      }
    }

    /** `list_element_at`: the slot of the element at the index. The index is
        a `size_t` incremented for the sentinel, so SIZE_MAX wraps to 0 and
        yields the sentinel of a normalized list or else the head; any other
        index past the end yields the error code LIST_BAD_INDEX, returned as
        an iterator. A normalized list answers at once; otherwise the live
        chain is walked. */
    method ElementAt(index: nat) returns (it: Iterator)
      requires Valid() && index < SizeLimit
      ensures index < |Contents| ==> it == Live[index]
      ensures |Contents| <= index < SizeLimit - 1 ==> it == BadIndex.Code()
      ensures index == SizeLimit - 1 ==> it == (if normalized then 0 else FirstOr0(Live))
    {
      var i := (index + 1) % SizeLimit;
      if i >= size {
        return BadIndex.Code();
      }
      if normalized {
        if i != 0 {
          OrderedSlot(index);
        }
        return i;
      }
      it := Walk(i);
    }

    /** In a normalized list element k sits in slot k + 1. */
    lemma OrderedSlot(k: nat)
      requires Valid() && normalized && k < |Live|
      ensures Live[k] == k + 1
    {
    }

    /** The walk of `list_element_at` through a list that is not normalized:
        i - 1 steps along `nexts` from the head (none when i is 0). */
    method Walk(i: nat) returns (it: Iterator)
      requires Valid() && i < size
      ensures i != 0 ==> it == Live[i - 1]
      ensures i == 0 ==> it == FirstOr0(Live)
    {
      it := Head();
      var j := 1;
      while j < i
        invariant 1 <= j && (i == 0 || j <= i)
        invariant i != 0 ==> it == Live[j - 1]
        invariant i == 0 ==> it == FirstOr0(Live)
        decreases i - j
      {
        IndexOfDistinct(Live, j - 1);
        it := Next(it);
        j := j + 1;
      }
    }

    /** `list_erase_by_value`: erases the first element equal to the value;
        a value not in the list is the sentinel's turn and erases nothing. */
    method EraseByValue(value: T) returns (err: ListError)
      requires Valid()
      modifies this, nexts, prevs
      ensures Valid() && data == old(data) && nexts == old(nexts) && prevs == old(prevs) && err == NoErr
      ensures value in old(Contents) ==>
                var k := IndexOf(old(Contents), value);
                && Contents == Remove(old(Contents), k)
                && Live == Remove(old(Live), k) && Free == [old(Live)[k]] + old(Free)
                && normalized == (old(normalized) && k + 1 == |old(Live)|)
      ensures value !in old(Contents) ==> unchanged(this) && unchanged(nexts, prevs)
    {
      var it := Find(value);
      if value in Contents {
        IndexOfDistinct(Live, IndexOf(Contents, value));
      }
      NoSentinel(Live, capacity);
      var cursor;
      err, cursor := Erase(it);
    }

    /** `list_erase_by_index` as written: the iterator `list_element_at`
        returns is erased whatever it is, so an index past the end (which
        yields LIST_BAD_INDEX, that is 3, as an iterator) erases the element
        in slot 3 when there is one, and SIZE_MAX erases the first element of
        a list that is not normalized. */
    method EraseByIndex(index: nat) returns (err: ListError)
      requires Valid() && index < SizeLimit
      modifies this, nexts, prevs
      ensures Valid() && data == old(data) && nexts == old(nexts) && prevs == old(prevs)
      ensures index < |old(Contents)| ==>
                && err == NoErr && Contents == Remove(old(Contents), index)
                && Live == Remove(old(Live), index) && Free == [old(Live)[index]] + old(Free)
                && normalized == (old(normalized) && index + 1 == |old(Live)|)
      ensures |old(Contents)| <= index < SizeLimit - 1 ==>
                if BadIndex.Code() in old(Live)
                then
                  var k := IndexOf(old(Live), BadIndex.Code());
                  && err == NoErr && Contents == Remove(old(Contents), k)
                  && Live == Remove(old(Live), k) && Free == [BadIndex.Code()] + old(Free)
                  && normalized == (old(normalized) && k + 1 == |old(Live)|)
                else err == BadIterator && unchanged(this) && unchanged(nexts, prevs)
      ensures index == SizeLimit - 1 ==>
                err == NoErr &&
                if old(normalized) || old(Contents) == [] then unchanged(this) && unchanged(nexts, prevs)
                else
                  && Contents == old(Contents)[1..]
                  && Live == old(Live)[1..] && Free == [old(Live)[0]] + old(Free)
                  && !normalized
    {
      var it := ElementAt(index);
      NoSentinel(Live, capacity);
      if index < |Contents| {
        IndexOfDistinct(Live, index);
      }
      var cursor;
      err, cursor := Erase(it);
      if index == SizeLimit - 1 && !old(normalized) && old(Contents) != [] {
        IndexOfDistinct(old(Live), 0);
        assert Contents == Remove(old(Contents), 0);
        assert Live == Remove(old(Live), 0);
      }
    }

    /** `list_erase_by_index` with the index checked: an index past the end
        is refused with LIST_BAD_INDEX and erases nothing. */
    method EraseAt(index: nat) returns (err: ListError)
      requires Valid() && index < SizeLimit
      modifies this, nexts, prevs
      ensures Valid() && data == old(data) && nexts == old(nexts) && prevs == old(prevs)
      ensures err == NoErr <==> index < |old(Contents)|
      ensures err == NoErr ==>
                && Contents == Remove(old(Contents), index)
                && Live == Remove(old(Live), index) && Free == [old(Live)[index]] + old(Free)
                && normalized == (old(normalized) && index + 1 == |old(Live)|)
      ensures err != NoErr ==> err == BadIndex && unchanged(this) && unchanged(nexts, prevs)
    {
      if index >= Size() {
        return BadIndex;
      }
      var it := ElementAt(index);
      IndexOfDistinct(Live, index);
      var cursor;
      err, cursor := Erase(it);
    }

    /** The one-slot arrays of a cleared list: the sentinel's payload and
        its links to itself. */
    static method SentinelArrays(scratch: T) returns (d: array<T>, nx: array<nat>, pv: array<nat>)
      ensures fresh(d) && fresh(nx) && fresh(pv) && d as object != nx && d as object != pv && nx != pv
      ensures d[..] == [scratch] && nx[..] == [0] && pv[..] == [0]
    {
      d := new T[1];
      d[0] := scratch;
      nx := new nat[1];
      pv := new nat[1];
      nx[0], pv[0] := 0, 0;
      assert d[..] == [scratch] && nx[..] == [0] && pv[..] == [0];
    }

    /** `list_clear` corrected: the list drops its elements and moves to
        one-slot arrays holding only the sentinel, linked to itself, with
        head, tail and first_free reset as `list_create` sets them; when the
        allocation fails the list is left as it was. */
    method Clear(allocOk: bool) returns (err: ListError)
      requires Valid()
      modifies this
      ensures Valid()
      ensures err == (if allocOk then NoErr else AllocErr)
      ensures err == NoErr ==> && Contents == [] && capacity == 1 && normalized && elemSize == old(elemSize)
                               && fresh(data) && fresh(nexts) && fresh(prevs)
      ensures err != NoErr ==> unchanged(this)
    {
      if !allocOk {
        return AllocErr;
      }
      var scratch := data[0];
      var d, nx, pv := SentinelArrays(scratch);
      ClearedWellFormed(scratch, elemSize);
      SetStorage(d, nx, pv, 1);
      assert Layout(data[..], nexts[..], prevs[..], elemSize, 1, capacity, 1, 0, 0, true)
          == Layout([scratch], [0], [0], elemSize, 1, 1, 1, 0, 0, true);
      Commit(1, 1, 0, 0, true, [], [], []);
      err := NoErr;
    }
  }

  /** A new block of n entries holding the first entries of `src`, as many
      as both have: `calloc` followed by `memcpy`. */
  method Reallocated<U(0)>(src: array<U>, n: nat) returns (dst: array<U>)
    ensures fresh(dst) && dst.Length == n
    ensures n <= src.Length ==> dst[..] == src[..n]
    ensures src.Length <= n ==> dst[..src.Length] == src[..]
  {
    dst := new U[n];
    if n <= src.Length {
      CopyPrefix(src, dst, n);
      assert dst[..] == dst[..n];
    } else {
      CopyPrefix(src, dst, src.Length);
      assert src[..] == src[..src.Length];
    }
  }

  /** `memcpy` of the first m entries of an array into another one. */
  method CopyPrefix<U>(src: array<U>, dst: array<U>, m: nat)
    requires m <= src.Length && m <= dst.Length && src != dst
    modifies dst
    ensures dst[..m] == src[..m]
  {
    var i := 0;
    while i < m
      invariant i <= m
      invariant dst[..i] == src[..i]
    {
      dst[i] := src[i];
      i := i + 1;
    }
  }

  /** The slots from `lo` on threaded into a chain in increasing order, the
      last closing it, each marked free; the entries before `lo` stay. */
  method ThreadSlots(nexts: array<nat>, prevs: array<nat>, lo: nat)
    requires 1 <= lo <= nexts.Length && prevs.Length == nexts.Length && nexts != prevs
    modifies nexts, prevs
    ensures nexts[..lo] == old(nexts[..lo]) && prevs[..lo] == old(prevs[..lo])
    ensures nexts[lo..] == OrderedNexts(lo, nexts.Length)[lo..]
    ensures prevs[lo..] == OrderedPrevs(lo, prevs.Length)[lo..]
  {
    var s := lo;
    while s < nexts.Length
      invariant lo <= s <= nexts.Length
      invariant nexts[..lo] == old(nexts[..lo]) && prevs[..lo] == old(prevs[..lo])
      invariant forall x :: lo <= x < s ==> nexts[x] == (x + 1) % nexts.Length && prevs[x] == x
    {
      nexts[s] := (s + 1) % nexts.Length;
      prevs[s] := s;
      s := s + 1;
    }
    ThreadedOrdered(nexts[..], prevs[..], lo);
  }

  /** Links threaded in increasing order from `lo` are those of the ordered layout. */
  lemma {:induction false} ThreadedOrdered(nexts: seq<nat>, prevs: seq<nat>, lo: nat)
    requires 1 <= lo <= |nexts| && |prevs| == |nexts|
    requires forall x :: lo <= x < |nexts| ==> nexts[x] == (x + 1) % |nexts| && prevs[x] == x
    ensures nexts[lo..] == OrderedNexts(lo, |nexts|)[lo..]
    ensures prevs[lo..] == OrderedPrevs(lo, |prevs|)[lo..]
  {
  }

  /** A sequence that agrees with b on 1 .. m - 1 (through c) and from m on
      equals b once its entry 0 is set to b's. */
  lemma {:induction false} EqualByParts(a: seq<nat>, b: seq<nat>, c: seq<nat>, m: nat)
    requires |a| == |b| && |c| == |a| && 1 <= m <= |a|
    requires a[..m] == c[..m] && c[1..m] == b[1..m] && a[m..] == b[m..]
    ensures a[0 := b[0]] == b
  {
    forall k | 1 <= k < |a| ensures a[k] == b[k] {
      if k < m {
        assert a[..m][k] == c[..m][k];
        assert c[1..m][k - 1] == b[1..m][k - 1];
      } else {
        assert a[m..][k - m] == b[m..][k - m];
      }
    }
  }

  /** Elements stored in slots 1 .. size - 1 in order. */
  lemma {:induction false} HoldsOrdered<T>(data: seq<T>, contents: seq<T>, size: nat)
    requires 1 <= size <= |data| && data[1..size] == contents
    ensures Holds(data, Range(1, size), contents)
  {
    forall k | 0 <= k < size - 1 ensures data[k + 1] == contents[k] {
      assert data[1..size][k] == data[k + 1];
    }
  }
}
