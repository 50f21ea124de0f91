/** The renumbering `list_normalize` performs: element by element, the k-th
    element of the list is moved into slot k, the element that occupied that
    slot moving into the vacated one. This module states the loop invariant of
    that renumbering and proves that each step keeps it. */
module ListNormalize {
  import opened ListLayout

  /** `list_swap_vals`: the payloads of slots a and b are exchanged, slot 0
      serving as the scratch cell. */
  function SwapData<T>(d: seq<T>, a: nat, b: nat): (r: seq<T>)
    requires 0 < a < |d| && 0 < b < |d|
    ensures |r| == |d| && r[a] == d[b] && r[b] == d[a]
    ensures forall s :: 0 < s < |d| && s != a && s != b ==> r[s] == d[s]
  {
    d[0 := d[a]][a := d[b]][b := d[a]]
  }

  /** Elements 1 .. i - 1 already sit in their slots; the others are in slots from i up. */
  ghost predicate Pending(live: seq<nat>, i: nat)
  {
    && (forall k :: 0 <= k < |live| && k + 1 < i ==> live[k] == k + 1)
    && (forall k :: 0 <= k < |live| && i <= k + 1 ==> live[k] >= i)
  }

  /** The forward links of the elements not yet placed are those of the list. */
  ghost predicate NextsRest(nexts: seq<nat>, live: seq<nat>, i: nat)
  {
    forall k {:trigger nexts[live[k]]} :: 0 <= k < |live| && i <= k + 1 ==>
      live[k] < |nexts| && nexts[live[k]] == NextOf(live, k)
  }

  /** The backward links of the elements after the current one are those of the list. */
  ghost predicate PrevsRest(prevs: seq<nat>, live: seq<nat>, i: nat)
  {
    forall k {:trigger prevs[live[k]]} :: 0 <= k < |live| && i <= k ==>
      live[k] < |prevs| && prevs[live[k]] == PrevOf(live, k)
  }

  /** Slots 1 .. i - 1 carry their final links. */
  ghost predicate Placed(nexts: seq<nat>, prevs: seq<nat>, size: nat, i: nat)
  {
    forall s :: 1 <= s < i ==>
      0 < size && s < |nexts| && s < |prevs| && nexts[s] == (s + 1) % size && prevs[s] == s - 1
  }

  /** Every slot holding no element is marked free. */
  ghost predicate FreeMarked(prevs: seq<nat>, live: seq<nat>, capacity: nat)
  {
    forall s :: 0 < s < capacity && s < |prevs| && s !in live ==> prevs[s] == s
  }

  /** Element k of the list is stored in slot live[k]. */
  ghost predicate Holds<T>(data: seq<T>, live: seq<nat>, contents: seq<T>)
  {
    && |contents| == |live|
    && (forall k :: 0 <= k < |live| ==> live[k] < |data| && data[live[k]] == contents[k])
  }

  /** A well-formed layout whose live slots hold `contents`, in list order. */
  ghost predicate WellFormed<T>(l: Layout<T>, live: seq<nat>, free: seq<nat>, contents: seq<T>)
  {
    Represents(l, live, free) && Holds(l.data, live, contents)
  }

  /** The loop invariant of the renumbering before slot i is filled: `live`
      gives the current slot of each element and `it` the slot of the i-th. */
  ghost predicate NormInv<T>(l: Layout<T>, live: seq<nat>, contents: seq<T>, i: nat, it: nat)
  {
    && Sized(l) && 2 <= l.size <= l.capacity
    && 1 <= i <= l.size && |live| == l.size - 1
    && InSlots(live, l.capacity) && Distinct(live)
    && Pending(live, i)
    && (i < l.size ==> it == live[i - 1])
    && NextsRest(l.nexts, live, i) && PrevsRest(l.prevs, live, i)
    && Placed(l.nexts, l.prevs, l.size, i)
    && FreeMarked(l.prevs, live, l.capacity)
    && Holds(l.data, live, contents)
  }

  /** A well-formed list of at least one element satisfies the invariant
      before the first slot is filled. */
  lemma {:induction false} NormStart<T>(l: Layout<T>, live: seq<nat>, free: seq<nat>, contents: seq<T>)
    requires Represents(l, live, free) && Holds(l.data, live, contents)
    requires l.size >= 2
    ensures NormInv(l, live, contents, 1, l.head)
  {
    forall s | 0 < s < l.capacity && s < |l.prevs| && s !in live
      ensures l.prevs[s] == s
    {
      var k := IndexOf(free, s);
      assert l.prevs[free[k]] == free[k];
    }
  }

  /** What the invariant says once every element is placed: slots
      1 .. size - 1 carry the ordered links and hold the elements in order. */
  lemma {:induction false} NormEnd<T>(l: Layout<T>, live: seq<nat>, contents: seq<T>, it: nat)
    requires NormInv(l, live, contents, l.size, it)
    ensures live == Range(1, l.size)
    ensures l.nexts[1..l.size] == OrderedNexts(l.size, l.capacity)[1..l.size]
    ensures l.prevs[1..l.size] == OrderedPrevs(l.size, l.capacity)[1..l.size]
    ensures l.data[1..l.size] == contents
  {
    forall k | 0 <= k < l.size - 1
      ensures l.nexts[1..l.size][k] == OrderedNexts(l.size, l.capacity)[1..l.size][k]
      ensures l.prevs[1..l.size][k] == OrderedPrevs(l.size, l.capacity)[1..l.size][k]
      ensures l.data[1..l.size][k] == contents[k]
    {
      assert live[k] == k + 1;
    }
  }

  /** The forward links written when the i-th element, in slot it, is moved
      into slot i: p and q are the links of the element found in slot i, which
      moves into slot it (p == i when slot i was free). */
  function RelocNexts(nexts: seq<nat>, p: nat, q: nat, i: nat, it: nat, size: nat): seq<nat>
    requires i < |nexts| && it < |nexts| && p < |nexts| && size >= 1
  {
    var n := if p == i then nexts else if p == it then nexts[it := q] else nexts[it := q][p := it];
    n[i := (i + 1) % size]
  }

  /** The backward links written by the same move. */
  function RelocPrevs(prevs: seq<nat>, p: nat, q: nat, i: nat, it: nat): seq<nat>
    requires 1 <= i < |prevs| && it < |prevs| && (p != i ==> q < |prevs|)
  {
    var back := if p == it then i else p;
    var n := if p == i then prevs[it := it] else if q == 0 then prevs[it := back] else prevs[it := back][q := it];
    n[i := i - 1]
  }

  /** One step of the renumbering when slot i does not yet hold the i-th element. */
  function RelocateStep<T>(l: Layout<T>, i: nat, it: nat): Layout<T>
    requires Sized(l) && 0 < i < l.capacity && 0 < it < l.capacity && 1 <= l.size
    requires l.prevs[i] < l.capacity && (l.prevs[i] != i ==> l.nexts[i] < l.capacity)
  {
    var p := l.prevs[i];
    var q := l.nexts[i];
    l.(data := SwapData(l.data, i, it),
       nexts := RelocNexts(l.nexts, p, q, i, it, l.size),
       prevs := RelocPrevs(l.prevs, p, q, i, it))
  }

  /** One step of the renumbering when slot i already holds the i-th element. */
  function AdvanceStep<T>(l: Layout<T>, i: nat): Layout<T>
    requires Sized(l) && 1 <= i < l.capacity && 1 <= l.size
  {
    l.(nexts := l.nexts[i := (i + 1) % l.size], prevs := l.prevs[i := i - 1])
  }

  /** Advancing over an element already in place keeps the invariant. */
  lemma {:induction false} AdvanceKeeps<T>(l: Layout<T>, live: seq<nat>, contents: seq<T>, i: nat)
    requires NormInv(l, live, contents, i, i) && i < l.size
    ensures i < l.capacity
    ensures NormInv(AdvanceStep(l, i), live, contents, i + 1, l.nexts[i])
  {
    var l' := AdvanceStep(l, i);
    assert live[i - 1] == i;
    forall k | 0 <= k < |live| && i <= k
      ensures live[k] != i
    {
      assert live[k] != live[i - 1];
    }
    assert l.nexts[live[i - 1]] == NextOf(live, i - 1);
    assert NextsRest(l'.nexts, live, i + 1) by {
      forall k | 0 <= k < |live| && i + 1 <= k + 1
        ensures l'.nexts[live[k]] == NextOf(live, k)
      {
        assert l.nexts[live[k]] == NextOf(live, k);
      }
    }
    assert PrevsRest(l'.prevs, live, i + 1) by {
      forall k | 0 <= k < |live| && i + 1 <= k
        ensures l'.prevs[live[k]] == PrevOf(live, k)
      {
        assert l.prevs[live[k]] == PrevOf(live, k);
      }
    }
  }

  /** How the move changes the slots of the elements: the i-th element goes
      to slot i and, if slot i held element j, that one goes to slot it. */
  ghost predicate MoveCase(live: seq<nat>, i: nat, it: nat, j: nat, p: nat, q: nat)
    requires 1 <= i <= |live|
  {
    if p == i then i !in live
    else i <= j < |live| && live[j] == i && p == live[j - 1] && q == NextOf(live, j)
  }

  function Moved(live: seq<nat>, i: nat, it: nat, j: nat, p: nat): seq<nat>
    requires 1 <= i <= |live| && j < |live|
  {
    if p == i then live[i - 1 := i] else live[i - 1 := i][j := it]
  }

  /** The case of the move, read off the links of slot i. */
  lemma {:induction false} MoveCaseOf<T>(l: Layout<T>, live: seq<nat>, contents: seq<T>, i: nat, it: nat)
    returns (j: nat)
    requires NormInv(l, live, contents, i, it) && i < l.size && it != i
    ensures i < l.capacity && j < |live|
    ensures MoveCase(live, i, it, j, l.prevs[i], l.nexts[i])
  {
    j := 0;
    if i in live {
      j := IndexOf(live, i);
      assert l.prevs[live[j]] == PrevOf(live, j);
      assert l.nexts[live[j]] == NextOf(live, j);
      assert live[j - 1] != live[j];
    }
  }

  /** The new slot sequence is again distinct, in range and pending from i + 1. */
  lemma {:induction false} MovedShape(live: seq<nat>, i: nat, it: nat, j: nat, p: nat, q: nat, capacity: nat, following: nat)
    requires 1 <= i <= |live| && j < |live|
    requires InSlots(live, capacity) && Distinct(live) && Pending(live, i) && it == live[i - 1] && it != i
    requires MoveCase(live, i, it, j, p, q)
    requires following == NextOf(live, i - 1)
    ensures InSlots(Moved(live, i, it, j, p), capacity) && Distinct(Moved(live, i, it, j, p))
    ensures Pending(Moved(live, i, it, j, p), i + 1)
    ensures i < |live| ==> Moved(live, i, it, j, p)[i] == (if following == i then it else following)
    ensures it > i
    ensures forall k :: 0 <= k < |live| && i <= k + 1 ==> live[k] > i || k == j
  {
    var live' := Moved(live, i, it, j, p);
    assert it >= i;
    forall k | 0 <= k < |live| && i <= k + 1 && k != j
      ensures live[k] > i
    {
      if p == i {
        assert live[k] != i;
      } else {
        assert live[k] != live[j];
      }
    }
    forall a, b | 0 <= a < b < |live'|
      ensures live'[a] != live'[b]
    {
      if a + 1 < i {
        assert live'[a] == a + 1;
      }
    }
  }

  /** The forward links after the move. */
  lemma {:induction false} MovedNexts(nexts: seq<nat>, live: seq<nat>, i: nat, it: nat, j: nat, p: nat, q: nat, size: nat)
    requires 1 <= i <= |live| && j < |live| && |live| + 1 == size
    requires i < |nexts| && it < |nexts| && p < |nexts|
    requires Distinct(live) && Pending(live, i) && it == live[i - 1] && it > i
    requires forall k :: 0 <= k < |live| && i <= k + 1 ==> live[k] > i || k == j
    requires MoveCase(live, i, it, j, p, q)
    requires NextsRest(nexts, live, i)
    ensures NextsRest(RelocNexts(nexts, p, q, i, it, size), Moved(live, i, it, j, p), i + 1)
  {
    var live' := Moved(live, i, it, j, p);
    var nexts' := RelocNexts(nexts, p, q, i, it, size);
    forall k | 0 <= k < |live'| && i + 1 <= k + 1
      ensures live'[k] < |nexts'| && nexts'[live'[k]] == NextOf(live', k)
    {
      assert nexts[live[k]] == NextOf(live, k);
      if p != i && k + 1 == j {
        assert live[k] == p;
      } else if p != i && k == j {
      } else {
        assert live[k] != it && live[k] != i;
        if p != i {
          assert live[k] != live[j - 1];
        }
      }
    }
  }

  /** The backward links after the move. */
  lemma {:induction false} MovedPrevs(prevs: seq<nat>, live: seq<nat>, i: nat, it: nat, j: nat, p: nat, q: nat)
    requires 1 <= i <= |live| && j < |live|
    requires i < |prevs| && it < |prevs| && (p != i ==> q < |prevs|)
    requires Distinct(live) && Pending(live, i) && it == live[i - 1] && it > i
    requires forall k :: 0 <= k < |live| && i <= k + 1 ==> live[k] > i || k == j
    requires MoveCase(live, i, it, j, p, q)
    requires PrevsRest(prevs, live, i)
    ensures PrevsRest(RelocPrevs(prevs, p, q, i, it), Moved(live, i, it, j, p), i + 1)
  {
    var live' := Moved(live, i, it, j, p);
    var prevs' := RelocPrevs(prevs, p, q, i, it);
    forall k | 0 <= k < |live'| && i + 1 <= k
      ensures live'[k] < |prevs'| && prevs'[live'[k]] == PrevOf(live', k)
    {
      assert prevs[live[k]] == PrevOf(live, k);
      if p != i && k == j {
      } else if p != i && k == j + 1 {
        assert live[k] == q;
      } else {
        assert live[k] != it && live[k] != i;
        if p != i && j + 1 < |live| {
          assert live[k] != live[j + 1];
        }
      }
    }
  }

  /** The placed slots after the move, slot i included. */
  lemma {:induction false} MovedPlaced(nexts: seq<nat>, prevs: seq<nat>, live: seq<nat>, i: nat, it: nat, j: nat, p: nat, q: nat, size: nat)
    requires 1 <= i <= |live| && j < |live| && |live| + 1 == size
    requires i < |nexts| && it < |nexts| && p < |nexts| && |prevs| == |nexts| && (p != i ==> q < |prevs|)
    requires Distinct(live) && Pending(live, i) && it == live[i - 1] && it > i
    requires forall k :: 0 <= k < |live| && i <= k + 1 ==> live[k] > i || k == j
    requires MoveCase(live, i, it, j, p, q)
    requires Placed(nexts, prevs, size, i)
    ensures Placed(RelocNexts(nexts, p, q, i, it, size), RelocPrevs(prevs, p, q, i, it), size, i + 1)
  {
    if p != i {
      assert p == it || p > i;
      if j + 1 < |live| {
        assert q > i;
      }
    }
  }

  /** The free marks after the move: slot it is marked when slot i was free. */
  lemma {:induction false} MovedFree(prevs: seq<nat>, live: seq<nat>, i: nat, it: nat, j: nat, p: nat, q: nat, capacity: nat)
    requires 1 <= i <= |live| && j < |live|
    requires i < |prevs| && it < |prevs| && (p != i ==> q < |prevs|)
    requires Pending(live, i) && it == live[i - 1]
    requires MoveCase(live, i, it, j, p, q)
    requires FreeMarked(prevs, live, capacity)
    ensures FreeMarked(RelocPrevs(prevs, p, q, i, it), Moved(live, i, it, j, p), capacity)
  {
    var live' := Moved(live, i, it, j, p);
    assert live'[i - 1] == i;
    if p != i {
      assert live'[j] == it;
      if j + 1 < |live| {
        assert live'[j + 1] == q;
      }
    }
    forall s | 0 < s < capacity && s < |prevs| && s !in live'
      ensures RelocPrevs(prevs, p, q, i, it)[s] == s
    {
      if s in live {
        var k := IndexOf(live, s);
        assert live'[k] != s;
      }
    }
  }

  /** The payloads after the move. */
  lemma {:induction false} MovedHolds<T>(data: seq<T>, live: seq<nat>, contents: seq<T>, i: nat, it: nat, j: nat, p: nat, q: nat)
    requires 1 <= i <= |live| && j < |live|
    requires 0 < i < |data| && 0 < it < |data|
    requires Distinct(live) && InSlots(live, |data|) && it == live[i - 1]
    requires MoveCase(live, i, it, j, p, q)
    requires Holds(data, live, contents)
    ensures Holds(SwapData(data, i, it), Moved(live, i, it, j, p), contents)
  {
    var live' := Moved(live, i, it, j, p);
    forall k | 0 <= k < |live'|
      ensures SwapData(data, i, it)[live'[k]] == contents[k]
    {
      if k != i - 1 && (p == i || k != j) {
        assert live[k] != live[i - 1];
        if p != i {
          assert live[k] != live[j];
        }
      }
    }
  }

  /** The links and free marks after moving the i-th element into slot i. */
  lemma {:induction false} RelocateLinks<T>(l: Layout<T>, live: seq<nat>, contents: seq<T>, i: nat, it: nat, j: nat)
    requires NormInv(l, live, contents, i, it) && i < l.size && it != i
    requires j < |live| && MoveCase(live, i, it, j, l.prevs[i], l.nexts[i])
    ensures 0 < i < l.capacity && 0 < it < l.capacity
    ensures l.prevs[i] < l.capacity && (l.prevs[i] != i ==> l.nexts[i] < l.capacity)
    ensures var r := RelocateStep(l, i, it);
            var live' := Moved(live, i, it, j, l.prevs[i]);
            && NextsRest(r.nexts, live', i + 1) && PrevsRest(r.prevs, live', i + 1)
            && Placed(r.nexts, r.prevs, r.size, i + 1) && FreeMarked(r.prevs, live', r.capacity)
  {
    var p := l.prevs[i];
    var q := l.nexts[i];
    MovedShape(live, i, it, j, p, q, l.capacity, l.nexts[it]);
    MovedNexts(l.nexts, live, i, it, j, p, q, l.size);
    MovedPrevs(l.prevs, live, i, it, j, p, q);
    MovedPlaced(l.nexts, l.prevs, live, i, it, j, p, q, l.size);
    MovedFree(l.prevs, live, i, it, j, p, q, l.capacity);
  }

  /** The slots and the next iterator after moving the i-th element into slot i. */
  lemma {:induction false} RelocateRest<T>(l: Layout<T>, live: seq<nat>, contents: seq<T>, i: nat, it: nat, j: nat)
    requires NormInv(l, live, contents, i, it) && i < l.size && it != i
    requires j < |live| && MoveCase(live, i, it, j, l.prevs[i], l.nexts[i])
    requires 0 < i < l.capacity && 0 < it < l.capacity
    requires l.prevs[i] < l.capacity && (l.prevs[i] != i ==> l.nexts[i] < l.capacity)
    ensures l.nexts[it] < l.capacity
    ensures var r := RelocateStep(l, i, it);
            var live' := Moved(live, i, it, j, l.prevs[i]);
            && Sized(r) && r.size == l.size && r.capacity == l.capacity
            && InSlots(live', r.capacity) && Distinct(live') && Pending(live', i + 1)
            && (i + 1 < r.size ==> (if l.nexts[it] == i then it else l.nexts[it]) == live'[i])
  {
    var p := l.prevs[i];
    var q := l.nexts[i];
    assert l.nexts[live[i - 1]] == NextOf(live, i - 1);
    MovedShape(live, i, it, j, p, q, l.capacity, l.nexts[it]);
  }

  /** Moving the i-th element into slot i keeps the invariant. */
  lemma {:induction false} RelocateKeeps<T>(l: Layout<T>, live: seq<nat>, contents: seq<T>, i: nat, it: nat)
    returns (live': seq<nat>)
    requires NormInv(l, live, contents, i, it) && i < l.size && it != i
    ensures 0 < i < l.capacity && 0 < it < l.capacity
    ensures l.prevs[i] < l.capacity && (l.prevs[i] != i ==> l.nexts[i] < l.capacity) && l.nexts[it] < l.capacity
    ensures NormInv(RelocateStep(l, i, it), live', contents, i + 1,
                    if l.nexts[it] == i then it else l.nexts[it])
  {
    var j := MoveCaseOf(l, live, contents, i, it);
    RelocateLinks(l, live, contents, i, it, j);
    RelocateRest(l, live, contents, i, it, j);
    MovedHolds(l.data, live, contents, i, it, j, l.prevs[i], l.nexts[i]);
    live' := Moved(live, i, it, j, l.prevs[i]);
  }
}
