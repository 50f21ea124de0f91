/** What `list_change_capacity` does to the layout: growing appends the new
    slots to the end of the free chain, shrinking an ordered list cuts the
    free slots at the new end. */
module ListCapacity {
  import opened ListLayout
  import opened ListNormalize

  /** A normalized list holds its elements in slots 1 .. size - 1 and its
      free chain in the slots after them, in order. */
  lemma {:induction false} InOrderRanges(size: nat, live: seq<nat>, free: seq<nat>, capacity: nat)
    requires 1 <= size <= capacity && |live| == size - 1 && |free| == capacity - size
    requires InOrder(size, live, free)
    ensures live == Range(1, size) && free == Range(size, capacity)
  {
  }

  /** A normalized list with a free slot has the ordered layout. */
  lemma {:induction false} NormalizedOrdered<T>(l: Layout<T>, live: seq<nat>, free: seq<nat>)
    requires Represents(l, live, free) && l.normalized && l.size < l.capacity
    ensures Ordered(l)
    ensures live == Range(1, l.size) && free == Range(l.size, l.capacity)
  {
    InOrderRanges(l.size, live, free, l.capacity);
    forall s | 1 <= s < l.size
      ensures l.nexts[s] == (s + 1) % l.size && l.prevs[s] == s - 1
    {
      assert live[s - 1] == s;
      assert l.nexts[live[s - 1]] == NextOf(live, s - 1);
      assert l.prevs[live[s - 1]] == PrevOf(live, s - 1);
      ModNext(s, l.size);
    }
    forall s | l.size <= s < l.capacity
      ensures l.nexts[s] == (s + 1) % l.capacity && l.prevs[s] == s
    {
      assert free[s - l.size] == s;
      assert l.nexts[free[s - l.size]] == NextOf(free, s - l.size);
      assert l.prevs[free[s - l.size]] == free[s - l.size];
      ModNext(s, l.capacity);
    }
  }

  /** The layout left by shrinking an ordered list to n slots: the arrays
      are cut to n entries, the last free slot closes the chain, and with no
      free slot left the free chain is empty. */
  function Truncated<T>(l: Layout<T>, n: nat): (r: Layout<T>)
    requires Sized(l) && 1 <= l.size <= n <= l.capacity
    ensures Sized(r) && r.capacity == n
  {
    var nexts := l.nexts[..n];
    l.(data := l.data[..n],
       nexts := if l.size < n then nexts[n - 1 := 0] else nexts,
       prevs := l.prevs[..n],
       capacity := n,
       firstFree := if l.size < n || l.size == 1 then l.size else 0)
  }

  /** Cutting an ordered layout after its elements keeps it ordered. */
  lemma {:induction false} TruncatedOrdered<T>(l: Layout<T>, n: nat)
    requires Ordered(l) && l.size <= n <= l.capacity
    ensures Ordered(Truncated(l, n))
  {
    var r := Truncated(l, n);
    forall s | l.size <= s < n
      ensures r.nexts[s] == (s + 1) % n && r.prevs[s] == s
    {
      ModNext(s, n);
      ModNext(s, l.capacity);
    }
  }

  /** Shrinking a normalized list to n slots, as `Truncated` describes,
      keeps it well formed, the elements in slots 1 .. size - 1. */
  lemma {:induction false} ShrinkWellFormed<T>(l: Layout<T>, live: seq<nat>, free: seq<nat>, contents: seq<T>, n: nat, r: Layout<T>)
    requires WellFormed(l, live, free, contents) && l.normalized && l.size <= n < l.capacity
    requires r.data == l.data[..n] && r.prevs == l.prevs[..n]
    requires r.nexts == (if l.size < n then l.nexts[..n][n - 1 := 0] else l.nexts[..n])
    requires r.elemSize == l.elemSize && r.size == l.size && r.capacity == n
    requires r.head == l.head && r.tail == l.tail && r.normalized
    requires r.firstFree == (if l.size < n || l.size == 1 then l.size else 0)
    ensures live == Range(1, l.size) && free == Range(l.size, l.capacity)
    ensures WellFormed(r, Range(1, l.size), Range(l.size, n), contents)
  {
    NormalizedOrdered(l, live, free);
    assert r == Truncated(l, n);
    TruncatedOrdered(l, n);
    OrderedRepresents(r);
    HoldsCopy(l.data, r.data, live, contents, n);
  }

  /** Appending the slots c .. n - 1 to a partition of the first c slots
      gives a partition of n slots. */
  lemma {:induction false} GrowPartition(live: seq<nat>, free: seq<nat>, c: nat, n: nat)
    requires Partition(live, free, c) && 1 <= c <= n
    ensures Partition(live, free + Range(c, n), n)
  {
    var extra := Range(c, n);
    var free' := free + extra;
    assert forall k :: 0 <= k < |free| ==> free'[k] == free[k];
    assert forall k :: |free| <= k < |free'| ==> free'[k] == c + (k - |free|);
    forall k | 0 <= k < |free'| ensures 0 < free'[k] < n {
      if k < |free| {
        assert free'[k] == free[k];
      }
    }
    forall j, k | 0 <= j < k < |free'| ensures free'[j] != free'[k] {
    }
    forall j, k | 0 <= j < |live| && 0 <= k < |free'| ensures live[j] != free'[k] {
    }
    forall s | 0 < s < n ensures s in live || s in free' {
      if c <= s {
        assert free'[|free| + (s - c)] == s;
      } else if s !in live {
        var k := IndexOf(free, s);
        assert free'[k] == s;
      }
    }
  }

  /** The live links do not change when only free slots and new slots are written. */
  lemma {:induction false} GrowLive(nexts: seq<nat>, prevs: seq<nat>, nexts': seq<nat>, prevs': seq<nat>, live: seq<nat>, last: nat)
    requires Linked(nexts, prevs, live) && last !in live
    requires |nexts| <= |nexts'| && |prevs| <= |prevs'|
    requires forall s :: 0 <= s < |nexts| && s != last ==> nexts'[s] == nexts[s]
    requires forall s :: 0 <= s < |prevs| ==> prevs'[s] == prevs[s]
    ensures Linked(nexts', prevs', live)
  {
    forall k | 0 <= k < |live|
      ensures live[k] < |nexts'| && live[k] < |prevs'|
      ensures nexts'[live[k]] == NextOf(live, k) && prevs'[live[k]] == PrevOf(live, k)
    {
      assert nexts[live[k]] == NextOf(live, k) && prevs[live[k]] == PrevOf(live, k);
    }
  }

  /** The free chain, its last slot now pointing at slot c, continued by
      the slots c .. n - 1 threaded in order. */
  lemma {:induction false} GrowFree(nexts: seq<nat>, prevs: seq<nat>, nexts': seq<nat>, prevs': seq<nat>, free: seq<nat>, c: nat, n: nat)
    requires FreeLinked(nexts, prevs, free) && InSlots(free, c) && Distinct(free)
    requires c < n && |nexts| == c && |prevs| == c && |nexts'| == n && |prevs'| == n
    requires forall s :: 0 <= s < c ==> nexts'[s] == (if free != [] && s == free[|free| - 1] then c else nexts[s])
    requires forall s :: 0 <= s < c ==> prevs'[s] == prevs[s]
    requires forall s :: c <= s < n ==> nexts'[s] == (s + 1) % n && prevs'[s] == s
    ensures FreeLinked(nexts', prevs', free + Range(c, n))
  {
    var extra := Range(c, n);
    var free' := free + extra;
    forall k | 0 <= k < |free'|
      ensures free'[k] < |nexts'| && free'[k] < |prevs'|
      ensures nexts'[free'[k]] == NextOf(free', k) && prevs'[free'[k]] == free'[k]
    {
      if k < |free| {
        assert free'[k] == free[k];
        assert nexts[free[k]] == NextOf(free, k) && prevs[free[k]] == free[k];
        if k + 1 < |free| {
          assert free[k] != free[|free| - 1];
          assert free'[k + 1] == free[k + 1];
        } else {
          assert free'[k + 1] == extra[0];
        }
      } else {
        var s := c + (k - |free|);
        assert free'[k] == s;
        ModNext(s, n);
        if k + 1 < |free'| {
          assert free'[k + 1] == s + 1;
        }
      }
    }
  }

  /** The whole-array description of the grown links, slot by slot. */
  lemma {:induction false} GrowPointwise(nexts: seq<nat>, prevs: seq<nat>, nexts': seq<nat>, prevs': seq<nat>, free: seq<nat>, c: nat, n: nat)
    requires 1 <= c < n && |nexts'| == n && |prevs'| == n && |nexts| == c && |prevs| == c
    requires free != [] ==> free[|free| - 1] < c
    requires nexts'[..c] == (if free == [] then nexts else nexts[free[|free| - 1] := c])
    requires prevs'[..c] == prevs
    requires nexts'[c..] == OrderedNexts(c, n)[c..] && prevs'[c..] == OrderedPrevs(c, n)[c..]
    ensures forall s :: 0 <= s < c ==> nexts'[s] == (if free != [] && s == free[|free| - 1] then c else nexts[s])
    ensures forall s :: 0 <= s < c ==> prevs'[s] == prevs[s]
    ensures forall s :: c <= s < n ==> nexts'[s] == (s + 1) % n && prevs'[s] == s
  {
    forall s | 0 <= s < c
      ensures prevs'[s] == prevs[s]
      ensures nexts'[s] == (if free != [] && s == free[|free| - 1] then c else nexts[s])
    {
      assert prevs'[..c][s] == prevs'[s];
      assert nexts'[..c][s] == nexts'[s];
    }
    forall s | c <= s < n
      ensures nexts'[s] == (s + 1) % n && prevs'[s] == s
    {
      assert nexts'[c..][s - c] == nexts'[s];
      assert prevs'[c..][s - c] == prevs'[s];
    }
  }

  /** The slots appended after a free chain in order keep it in order. */
  lemma {:induction false} GrowInOrder(size: nat, live: seq<nat>, free: seq<nat>, c: nat, n: nat)
    requires InOrder(size, live, free) && |free| == c - size && c <= n
    ensures InOrder(size, live, free + Range(c, n))
  {
    var free' := free + Range(c, n);
    forall k | 0 <= k < |free'| ensures free'[k] == size + k {
      if k < |free| {
        assert free'[k] == free[k];
      } else {
        assert free'[k] == c + (k - |free|);
      }
    }
  }

  /** Growing the arrays to n slots, with the chain end of the free chain
      (or first_free, when the chain is empty) pointing at the old capacity
      and the new slots threaded in order, keeps the list well formed; the
      new slots follow the old free chain. */
  lemma {:induction false} GrowKeepsShape<T>(l: Layout<T>, live: seq<nat>, free: seq<nat>, r: Layout<T>)
    requires Represents(l, live, free)
    requires Sized(r) && l.capacity < r.capacity
    requires r.size == l.size && r.elemSize == l.elemSize && r.normalized == l.normalized
    requires r.head == l.head && r.tail == l.tail
    requires r.firstFree == (if free == [] then l.size else l.firstFree)
    requires r.nexts[..l.capacity] == (if free == [] then l.nexts else l.nexts[free[|free| - 1] := l.capacity])
    requires r.prevs[..l.capacity] == l.prevs
    requires l.capacity >= 1
    requires r.nexts[l.capacity..] == OrderedNexts(l.capacity, r.capacity)[l.capacity..]
    requires r.prevs[l.capacity..] == OrderedPrevs(l.capacity, r.capacity)[l.capacity..]
    ensures Represents(r, live, free + Range(l.capacity, r.capacity))
  {
    var c := l.capacity;
    var free' := free + Range(c, r.capacity);
    GrowPointwise(l.nexts, l.prevs, r.nexts, r.prevs, free, c, r.capacity);
    GrowPartition(live, free, c, r.capacity);
    var last := if free != [] then free[|free| - 1] else 0;
    if free != [] {
      DisjointNotIn(free, live, |free| - 1) by {
        forall j, k | 0 <= j < |free| && 0 <= k < |live| ensures free[j] != live[k] {
          assert live[k] != free[j];
        }
      }
    }
    NoSentinel(live, c);
    GrowLive(l.nexts, l.prevs, r.nexts, r.prevs, live, last);
    GrowFree(l.nexts, l.prevs, r.nexts, r.prevs, free, c, r.capacity);
    assert r.nexts[0] == l.nexts[0] && r.prevs[0] == l.prevs[0];
    if r.normalized {
      GrowInOrder(r.size, live, free, c, r.capacity);
    }
  }

  /** Growing as `GrowKeepsShape` describes, with the payloads copied,
      keeps the list well formed. */
  lemma {:induction false} GrowWellFormed<T>(l: Layout<T>, live: seq<nat>, free: seq<nat>, contents: seq<T>, r: Layout<T>)
    requires WellFormed(l, live, free, contents)
    requires Sized(r) && l.capacity < r.capacity
    requires r.size == l.size && r.elemSize == l.elemSize && r.normalized == l.normalized
    requires r.head == l.head && r.tail == l.tail
    requires r.firstFree == (if l.firstFree != 0 then l.firstFree else l.size)
    requires r.data[..l.capacity] == l.data
    requires r.nexts[..l.capacity] == (if free == [] then l.nexts else l.nexts[free[|free| - 1] := l.capacity])
    requires r.prevs[..l.capacity] == l.prevs
    requires r.nexts[l.capacity..] == OrderedNexts(l.capacity, r.capacity)[l.capacity..]
    requires r.prevs[l.capacity..] == OrderedPrevs(l.capacity, r.capacity)[l.capacity..]
    ensures WellFormed(r, live, free + Range(l.capacity, r.capacity), contents)
  {
    assert Represents(r, live, free + Range(l.capacity, r.capacity)) by {
      if free != [] {
        assert l.firstFree == free[0];
        NoSentinel(free, l.capacity);
      }
      GrowKeepsShape(l, live, free, r);
    }
    assert Holds(r.data, live, contents) by {
      HoldsCopy(l.data, r.data, live, contents, l.capacity);
    }
  }

  /** The payloads survive a copy of the arrays' first entries that covers
      every live slot. */
  lemma {:induction false} HoldsCopy<T>(data: seq<T>, data': seq<T>, live: seq<nat>, contents: seq<T>, m: nat)
    requires Holds(data, live, contents) && m <= |data| && m <= |data'|
    requires forall k :: 0 <= k < |live| ==> live[k] < m
    requires data'[..m] == data[..m]
    ensures Holds(data', live, contents)
  {
    forall k | 0 <= k < |live| ensures data'[live[k]] == contents[k] {
      assert data'[..m][live[k]] == data[..m][live[k]];
    }
  }
}
