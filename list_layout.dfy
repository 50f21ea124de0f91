/** The physical layout of a list (its three co-indexed arrays and its
    bookkeeping fields, taken as values) and the invariant that ties a layout
    to the slots of the live elements, in list order, and to the free chain. */
module ListLayout {
  import opened ListTypes

  /** The fields of the list record at one moment; `data` holds the payloads,
      `nexts` and `prevs` the slot links. */
  datatype Layout<T> = Layout(
    data: seq<T>,
    nexts: seq<nat>,
    prevs: seq<nat>,
    elemSize: nat,
    size: nat,
    capacity: nat,
    firstFree: nat,
    head: nat,
    tail: nat,
    normalized: bool)

  /** The slot after position k of a chain, 0 closing the chain. */
  function NextOf(s: seq<nat>, k: nat): nat
    requires k < |s|
  {
    if k + 1 < |s| then s[k + 1] else 0
  }

  /** The slot before position k of a chain, 0 opening the chain. */
  function PrevOf(s: seq<nat>, k: nat): nat
    requires k < |s|
  {
    if k > 0 then s[k - 1] else 0
  }

  function FirstOr0(s: seq<nat>): nat
  {
    if s == [] then 0 else s[0]
  }

  function LastOr0(s: seq<nat>): nat
  {
    if s == [] then 0 else s[|s| - 1]
  }

  /** The slots lo, lo + 1, ..., hi - 1. */
  function Range(lo: nat, hi: nat): (r: seq<nat>)
    requires lo <= hi
    ensures |r| == hi - lo
    ensures forall k :: 0 <= k < |r| ==> r[k] == lo + k
  {
    seq(hi - lo, k => lo + k)
  }

  /** Dropping the first slot of a range leaves the range one further on. */
  lemma RangeTail(lo: nat, hi: nat)
    requires lo < hi
    ensures Range(lo, hi)[1..] == Range(lo + 1, hi)
  {
  }

  /** s with x placed at position pos. */
  function Insert<U>(s: seq<U>, pos: nat, x: U): (r: seq<U>)
    requires pos <= |s|
    ensures |r| == |s| + 1
  {
    s[..pos] + [x] + s[pos..]
  }

  /** s without its element at position k. */
  function Remove<U>(s: seq<U>, k: nat): (r: seq<U>)
    requires k < |s|
    ensures |r| == |s| - 1
  {
    s[..k] + s[k + 1..]
  }

  /** The first position of x in s. */
  function IndexOf<U(==)>(s: seq<U>, x: U): (k: nat)
    requires x in s
    ensures k < |s| && s[k] == x
    ensures forall j :: 0 <= j < k ==> s[j] != x
  {
    if s[0] == x then 0 else 1 + IndexOf(s[1..], x)
  }

  ghost predicate Distinct(s: seq<nat>)
  {
    forall j, k :: 0 <= j < k < |s| ==> s[j] != s[k]
  }

  ghost predicate Disjoint(a: seq<nat>, b: seq<nat>)
  {
    forall j, k :: 0 <= j < |a| && 0 <= k < |b| ==> a[j] != b[k]
  }

  /** Every entry is a slot other than the sentinel. */
  ghost predicate InSlots(s: seq<nat>, capacity: nat)
  {
    forall k :: 0 <= k < |s| ==> 0 < s[k] < capacity
  }

  /** live and free hold every slot but the sentinel, each exactly once. */
  ghost predicate Partition(live: seq<nat>, free: seq<nat>, capacity: nat)
  {
    && InSlots(live, capacity) && InSlots(free, capacity)
    && Distinct(live) && Distinct(free) && Disjoint(live, free)
    && (forall s :: 0 < s < capacity ==> s in live || s in free)
  }

  lemma DisjointNotIn(a: seq<nat>, b: seq<nat>, j: nat)
    requires Disjoint(a, b) && j < |a|
    ensures a[j] !in b
  {
    forall k | 0 <= k < |b| ensures b[k] != a[j] {
    }
  }

  lemma NoSentinel(s: seq<nat>, capacity: nat)
    requires InSlots(s, capacity)
    ensures 0 !in s
  {
    forall k | 0 <= k < |s| ensures s[k] != 0 {
    }
  }

  /** The three arrays are `capacity` long, as the record promises. */
  ghost predicate Sized<T>(l: Layout<T>)
  {
    |l.data| == l.capacity && |l.nexts| == l.capacity && |l.prevs| == l.capacity
  }

  /** Every link names a slot, so that following links stays inside the arrays. */
  ghost predicate Addressable<T>(l: Layout<T>)
  {
    && |l.nexts| == l.capacity && |l.prevs| == l.capacity
    && (forall s :: 0 <= s < l.capacity ==> l.nexts[s] < l.capacity && l.prevs[s] < l.capacity)
  }

  /** The live chain: walking `nexts` from the sentinel visits the slots of
      `live` in order and comes back to 0, `prevs` walks it backwards, and
      head/tail name its ends. */
  ghost predicate LiveChain<T>(l: Layout<T>, live: seq<nat>)
    requires Sized(l) && 1 <= l.capacity && InSlots(live, l.capacity)
  {
    && l.head == FirstOr0(live) && l.tail == LastOr0(live)
    && l.nexts[0] == l.head && l.prevs[0] == l.tail
    && Linked(l.nexts, l.prevs, live)
  }

  /** The free chain: a singly linked chain from first_free through `nexts`
      ending at 0, each of its slots marked free by pointing `prevs` at itself.
      A list created with no room at all keeps first_free = 1 = capacity. */
  ghost predicate FreeChain<T>(l: Layout<T>, free: seq<nat>)
    requires Sized(l) && InSlots(free, l.capacity)
  {
    && FreeLinked(l.nexts, l.prevs, free)
    && (if free != [] then l.firstFree == free[0]
        else l.firstFree == 0 || (l.capacity == 1 && l.firstFree == 1))
  }

  /** What the normalized flag promises: element k + 1 of the list sits in slot
      k + 1, and the free slots follow in increasing order from slot `size`. */
  ghost predicate InOrder(size: nat, live: seq<nat>, free: seq<nat>)
  {
    && (forall k :: 0 <= k < |live| ==> live[k] == k + 1)
    && (forall k :: 0 <= k < |free| ==> free[k] == size + k)
  }

  /** The full invariant of a list record: `live` lists the slots of its
      elements in list order and `free` its free chain; together with the
      sentinel they cover every slot exactly once. */
  ghost predicate Represents<T>(l: Layout<T>, live: seq<nat>, free: seq<nat>)
  {
    && Sized(l)
    && 1 <= l.size <= l.capacity && 1 <= l.elemSize
    && |live| == l.size - 1 && |free| == l.capacity - l.size
    && Partition(live, free, l.capacity)
    && LiveChain(l, live)
    && FreeChain(l, free)
    && (l.normalized ==> InOrder(l.size, live, free))
  }

  /** A slot other than the sentinel is live exactly when its `prevs` entry
      does not point at itself: the self-loop is the free marker. */
  lemma FreeMarker<T>(l: Layout<T>, live: seq<nat>, free: seq<nat>, s: nat)
    requires Represents(l, live, free)
    requires 0 < s < l.capacity
    ensures s in live <==> l.prevs[s] != s
    ensures s in free <==> l.prevs[s] == s
  {
    if s in live {
      var k := IndexOf(live, s);
      assert s !in free;
      if k > 0 {
        assert live[k - 1] != live[k];
      }
    } else {
      var k := IndexOf(free, s);
    }
  }

  /** In a well-formed layout every link names a slot. */
  lemma RepresentsAddressable<T>(l: Layout<T>, live: seq<nat>, free: seq<nat>)
    requires Represents(l, live, free)
    ensures Addressable(l)
  {
    forall s | 0 <= s < l.capacity
      ensures l.nexts[s] < l.capacity && l.prevs[s] < l.capacity
    {
      if s == 0 {
      } else if s in live {
        var k := IndexOf(live, s);
      } else {
        var k := IndexOf(free, s);
      }
    }
  }

  /** The position an element inserted after iterator `it` takes. */
  function PositionAfter(live: seq<nat>, it: nat): (pos: nat)
    requires it == 0 || it in live
    ensures pos <= |live|
  {
    if it == 0 then 0 else IndexOf(live, it) + 1
  }

  /** The writes `list_insert_after` makes once `slot` has been taken from the
      free chain: the value goes into the slot, which is spliced between `it`
      and its old successor. */
  function LinkAfter<T>(l: Layout<T>, it: nat, slot: nat, value: T): Layout<T>
    requires it < |l.nexts| && slot < |l.nexts| && slot < |l.data| && |l.prevs| == |l.nexts|
    requires l.nexts[it] < |l.prevs|
  {
    var next := l.nexts[it];
    l.(data := l.data[slot := value],
       nexts := l.nexts[slot := next][it := slot],
       prevs := l.prevs[slot := it][next := slot],
       tail := if next == 0 then slot else l.tail,
       normalized := l.normalized && next == 0,
       head := if it == 0 then slot else l.head)
  }

  /** The writes `list_erase` makes to unlink slot s and push it on the free chain. */
  function Unlink<T>(l: Layout<T>, s: nat): Layout<T>
    requires 1 <= l.size
    requires s < |l.nexts| && |l.prevs| == |l.nexts|
    requires l.nexts[s] < |l.nexts| && l.prevs[s] < |l.nexts|
  {
    var next := l.nexts[s];
    var prev := l.prevs[s];
    l.(nexts := l.nexts[prev := next][s := l.firstFree],
       prevs := l.prevs[next := prev][s := s],
       firstFree := s,
       head := if s == l.head then next else l.head,
       tail := if s == l.tail then prev else l.tail,
       normalized := l.normalized && s == l.tail,
       size := l.size - 1)
  }

  lemma InsertIndex<U>(s: seq<U>, pos: nat, x: U)
    requires pos <= |s|
    ensures forall k :: 0 <= k < pos ==> Insert(s, pos, x)[k] == s[k]
    ensures Insert(s, pos, x)[pos] == x
    ensures forall k :: pos < k <= |s| ==> Insert(s, pos, x)[k] == s[k - 1]
  {
  }

  lemma RemoveIndex<U>(s: seq<U>, k: nat)
    requires k < |s|
    ensures forall j :: 0 <= j < k ==> Remove(s, k)[j] == s[j]
    ensures forall j :: k <= j < |s| - 1 ==> Remove(s, k)[j] == s[j + 1]
  {
  }

  lemma ConsIndex(x: nat, s: seq<nat>)
    ensures ([x] + s)[0] == x
    ensures forall j :: 0 <= j < |s| ==> ([x] + s)[j + 1] == s[j]
  {
  }

  /** The rest of a chain after its first slot. */
  lemma {:induction false} ConsParts(x: nat, s: seq<nat>, capacity: nat)
    requires Distinct([x] + s) && InSlots([x] + s, capacity)
    ensures Distinct(s) && InSlots(s, capacity) && x !in s && 0 < x < capacity
  {
    ConsIndex(x, s);
    forall j | 0 <= j < |s| ensures s[j] != x && 0 < s[j] < capacity {
      assert ([x] + s)[j + 1] == s[j];
    }
    forall a, b | 0 <= a < b < |s| ensures s[a] != s[b] {
      assert ([x] + s)[a + 1] == s[a] && ([x] + s)[b + 1] == s[b];
    }
  }

  /** Placing a new slot anywhere in a chain keeps its slots distinct. */
  lemma {:induction false} InsertParts(s: seq<nat>, pos: nat, x: nat, capacity: nat)
    requires Distinct(s) && InSlots(s, capacity) && x !in s && 0 < x < capacity
    requires pos <= |s|
    ensures Distinct(Insert(s, pos, x)) && InSlots(Insert(s, pos, x), capacity)
  {
    var s' := Insert(s, pos, x);
    InsertIndex(s, pos, x);
    forall a, b | 0 <= a < b < |s'| ensures s'[a] != s'[b] {
      if a > pos {
        assert s'[a] == s[a - 1];
      }
      if b > pos {
        assert s'[b] == s[b - 1];
      }
    }
    forall a | 0 <= a < |s'| ensures 0 < s'[a] < capacity {
      if a > pos {
        assert s'[a] == s[a - 1];
      }
    }
  }

  /** Moving the front of the free chain into the live chain keeps the partition. */
  lemma {:induction false} PartitionTake(live: seq<nat>, free: seq<nat>, slot: nat, pos: nat, capacity: nat)
    requires Partition(live, [slot] + free, capacity)
    requires pos <= |live|
    ensures Partition(Insert(live, pos, slot), free, capacity)
    ensures slot !in live && slot !in free && Disjoint(live, free)
  {
    var free0 := [slot] + free;
    var live' := Insert(live, pos, slot);
    ConsIndex(slot, free);
    ConsParts(slot, free, capacity);
    forall j | 0 <= j < |live| ensures live[j] != slot {
      assert free0[0] == slot;
    }
    InsertParts(live, pos, slot, capacity);
    InsertIndex(live, pos, slot);
    assert Disjoint(live, free) by {
      forall a, b | 0 <= a < |live| && 0 <= b < |free| ensures live[a] != free[b] {
        assert free0[b + 1] == free[b];
      }
    }
    assert Disjoint(live', free) by {
      forall a, b | 0 <= a < |live'| && 0 <= b < |free| ensures live'[a] != free[b] {
        if a > pos {
          assert live'[a] == live[a - 1];
        }
      }
    }
    forall s | 0 < s < capacity
      ensures s in live' || s in free
    {
      if s in live {
        var j := IndexOf(live, s);
        if j < pos {
          assert live'[j] == s;
        } else {
          assert live'[j + 1] == s;
        }
      } else {
        var j := IndexOf(free0, s);
        if j == 0 {
          assert live'[pos] == s;
        } else {
          assert free[j - 1] == s;
        }
      }
    }
  }

  /** Moving a live slot onto the front of the free chain keeps the partition. */
  lemma {:induction false} PartitionGive(live: seq<nat>, free: seq<nat>, k: nat, capacity: nat)
    requires Partition(live, free, capacity)
    requires k < |live|
    ensures Partition(Remove(live, k), [live[k]] + free, capacity)
  {
    var s := live[k];
    var live' := Remove(live, k);
    var free' := [s] + free;
    RemoveIndex(live, k);
    ConsIndex(s, free);
    assert Distinct(live') by {
      forall a, b | 0 <= a < b < |live'| ensures live'[a] != live'[b] {
        if b < k {
        } else if a < k {
          assert live'[b] == live[b + 1];
        } else {
          assert live'[a] == live[a + 1] && live'[b] == live[b + 1];
        }
      }
    }
    assert Distinct(free') by {
      forall a, b | 0 <= a < b < |free'| ensures free'[a] != free'[b] {
        assert free'[b] == free[b - 1];
        if a > 0 {
          assert free'[a] == free[a - 1];
        }
      }
    }
    assert Disjoint(live', free') by {
      forall a, b | 0 <= a < |live'| && 0 <= b < |free'| ensures live'[a] != free'[b] {
        if a >= k {
          assert live'[a] == live[a + 1];
        }
        if b > 0 {
          assert free'[b] == free[b - 1];
        }
      }
    }
    assert InSlots(live', capacity) by {
      forall a | 0 <= a < |live'| ensures 0 < live'[a] < capacity {
        if a >= k {
          assert live'[a] == live[a + 1];
        }
      }
    }
    assert InSlots(free', capacity) by {
      forall a | 0 <= a < |free'| ensures 0 < free'[a] < capacity {
        if a > 0 {
          assert free'[a] == free[a - 1];
        }
      }
    }
    forall t | 0 < t < capacity
      ensures t in live' || t in free'
    {
      if t in live {
        var j := IndexOf(live, t);
        if j < k {
          assert live'[j] == t;
        } else if j > k {
          assert live'[j - 1] == t;
        }
      } else {
        var j := IndexOf(free, t);
        assert free'[j + 1] == t;
      }
    }
  }

  /** The links of a free chain: forward through `nexts`, and every slot
      marked free in `prevs`. */
  ghost predicate FreeLinked(nexts: seq<nat>, prevs: seq<nat>, free: seq<nat>)
  {
    && (forall k :: 0 <= k < |free| ==> free[k] < |nexts| && free[k] < |prevs|)
    && (forall k {:trigger nexts[free[k]]} {:trigger prevs[free[k]]} :: 0 <= k < |free| ==>
          nexts[free[k]] == NextOf(free, k) && prevs[free[k]] == free[k])
  }

  /** The live links of a chain, in `nexts` and `prevs`. */
  ghost predicate Linked(nexts: seq<nat>, prevs: seq<nat>, live: seq<nat>)
  {
    && (forall k :: 0 <= k < |live| ==> live[k] < |nexts| && live[k] < |prevs|)
    && (forall k {:trigger nexts[live[k]]} {:trigger prevs[live[k]]} :: 0 <= k < |live| ==>
          nexts[live[k]] == NextOf(live, k) && prevs[live[k]] == PrevOf(live, k))
  }

  /** The live links after splicing `slot` in between `it` and `next`. */
  lemma {:induction false} SpliceLinks(nexts: seq<nat>, prevs: seq<nat>, live: seq<nat>, pos: nat, slot: nat, it: nat, next: nat)
    requires Distinct(live) && 0 !in live && slot !in live && 0 < slot < |nexts| && slot < |prevs|
    requires pos <= |live|
    requires it == (if pos == 0 then 0 else live[pos - 1]) && it < |nexts|
    requires next == (if pos < |live| then live[pos] else 0) && next < |prevs|
    requires Linked(nexts, prevs, live)
    ensures Linked(nexts[slot := next][it := slot], prevs[slot := it][next := slot], Insert(live, pos, slot))
  {
    var live' := Insert(live, pos, slot);
    forall k | 0 <= k < |live'|
      ensures live'[k] < |nexts| && live'[k] < |prevs|
      ensures nexts[slot := next][it := slot][live'[k]] == NextOf(live', k)
    {
      SpliceNextAt(nexts, prevs, live, pos, slot, it, next, k);
    }
    forall k | 0 <= k < |live'|
      ensures prevs[slot := it][next := slot][live'[k]] == PrevOf(live', k)
    {
      SplicePrevAt(nexts, prevs, live, pos, slot, it, next, k);
    }
  }

  lemma {:induction false} SpliceNextAt(nexts: seq<nat>, prevs: seq<nat>, live: seq<nat>, pos: nat, slot: nat, it: nat, next: nat, k: nat)
    requires Distinct(live) && 0 !in live && slot !in live && 0 < slot < |nexts| && slot < |prevs|
    requires pos <= |live|
    requires it == (if pos == 0 then 0 else live[pos - 1]) && it < |nexts|
    requires next == (if pos < |live| then live[pos] else 0)
    requires Linked(nexts, prevs, live)
    requires k <= |live|
    ensures Insert(live, pos, slot)[k] < |nexts| && Insert(live, pos, slot)[k] < |prevs|
    ensures nexts[slot := next][it := slot][Insert(live, pos, slot)[k]] == NextOf(Insert(live, pos, slot), k)
  {
    InsertIndex(live, pos, slot);
    if k < pos {
      if k + 1 < pos {
        assert live[k] != live[pos - 1];
      }
    } else if k > pos {
      assert live[k - 1] != it by {
        if pos > 0 {
          assert live[k - 1] != live[pos - 1];
        }
      }
    }
  }

  lemma {:induction false} SplicePrevAt(nexts: seq<nat>, prevs: seq<nat>, live: seq<nat>, pos: nat, slot: nat, it: nat, next: nat, k: nat)
    requires Distinct(live) && 0 !in live && slot !in live && 0 < slot < |nexts| && slot < |prevs|
    requires pos <= |live|
    requires it == (if pos == 0 then 0 else live[pos - 1])
    requires next == (if pos < |live| then live[pos] else 0) && next < |prevs|
    requires Linked(nexts, prevs, live)
    requires k <= |live|
    ensures Insert(live, pos, slot)[k] < |prevs|
    ensures prevs[slot := it][next := slot][Insert(live, pos, slot)[k]] == PrevOf(Insert(live, pos, slot), k)
  {
    InsertIndex(live, pos, slot);
    if k < pos {
      if pos < |live| {
        assert live[k] != live[pos];
      }
    } else if k > pos + 1 {
      assert live[k - 1] != live[pos];
    }
  }

  /** The live links after unlinking the element at position k. */
  lemma {:induction false} UnspliceLinks(nexts: seq<nat>, prevs: seq<nat>, live: seq<nat>, k: nat, firstFree: nat)
    requires Distinct(live) && 0 !in live && k < |live|
    requires Linked(nexts, prevs, live)
    requires NextOf(live, k) < |prevs| && PrevOf(live, k) < |nexts|
    ensures Linked(nexts[PrevOf(live, k) := NextOf(live, k)][live[k] := firstFree],
                   prevs[NextOf(live, k) := PrevOf(live, k)][live[k] := live[k]],
                   Remove(live, k))
  {
    var live' := Remove(live, k);
    forall j | 0 <= j < |live'|
      ensures live'[j] < |nexts| && live'[j] < |prevs|
      ensures nexts[PrevOf(live, k) := NextOf(live, k)][live[k] := firstFree][live'[j]] == NextOf(live', j)
    {
      UnspliceNextAt(nexts, prevs, live, k, firstFree, j);
    }
    forall j | 0 <= j < |live'|
      ensures prevs[NextOf(live, k) := PrevOf(live, k)][live[k] := live[k]][live'[j]] == PrevOf(live', j)
    {
      UnsplicePrevAt(nexts, prevs, live, k, j);
    }
  }

  lemma {:induction false} UnspliceNextAt(nexts: seq<nat>, prevs: seq<nat>, live: seq<nat>, k: nat, firstFree: nat, j: nat)
    requires Distinct(live) && 0 !in live && k < |live|
    requires Linked(nexts, prevs, live)
    requires PrevOf(live, k) < |nexts|
    requires j < |live| - 1
    ensures Remove(live, k)[j] < |nexts| && Remove(live, k)[j] < |prevs|
    ensures nexts[PrevOf(live, k) := NextOf(live, k)][live[k] := firstFree][Remove(live, k)[j]] == NextOf(Remove(live, k), j)
  {
    RemoveIndex(live, k);
    if j < k {
      assert live[j] != live[k];
      if j + 1 < k {
        assert live[j] != live[k - 1];
      }
    } else {
      assert live[j + 1] != live[k];
      if k > 0 {
        assert live[j + 1] != live[k - 1];
      }
    }
  }

  lemma {:induction false} UnsplicePrevAt(nexts: seq<nat>, prevs: seq<nat>, live: seq<nat>, k: nat, j: nat)
    requires Distinct(live) && 0 !in live && k < |live|
    requires Linked(nexts, prevs, live)
    requires NextOf(live, k) < |prevs|
    requires j < |live| - 1
    ensures Remove(live, k)[j] < |prevs|
    ensures prevs[NextOf(live, k) := PrevOf(live, k)][live[k] := live[k]][Remove(live, k)[j]] == PrevOf(Remove(live, k), j)
  {
    RemoveIndex(live, k);
    if j < k {
      assert live[j] != live[k];
      if k + 1 < |live| {
        assert live[j] != live[k + 1];
      }
    } else {
      assert live[j + 1] != live[k];
      if j > k {
        assert live[j + 1] != live[k + 1];
      }
    }
  }

  /** The state inside `list_insert_after` once `list_remove_first_free` has
      taken `slot`: the size already counts the new element, first_free has
      moved on, and the layout is otherwise the one of a list whose free chain
      still starts with `slot`. */
  ghost predicate Popped<T>(l: Layout<T>, live: seq<nat>, free: seq<nat>, slot: nat)
  {
    && l.size >= 2
    && Represents(l.(size := l.size - 1, firstFree := slot), live, [slot] + free)
    && l.firstFree == FirstOr0(free)
  }

  /** The free chain that remains once its first slot has been spliced into the live chain. */
  lemma {:induction false} SpliceFree(nexts: seq<nat>, prevs: seq<nat>, free: seq<nat>, slot: nat, it: nat, next: nat)
    requires FreeLinked(nexts, prevs, [slot] + free)
    requires slot !in free && it !in free && next !in free
    requires slot < |nexts| && slot < |prevs| && it < |nexts| && next < |prevs|
    ensures FreeLinked(nexts[slot := next][it := slot], prevs[slot := it][next := slot], free)
  {
    ConsIndex(slot, free);
    forall k | 0 <= k < |free|
      ensures nexts[slot := next][it := slot][free[k]] == NextOf(free, k)
      ensures prevs[slot := it][next := slot][free[k]] == free[k]
    {
      var f := free[k];
      assert ([slot] + free)[k + 1] == f;
      assert f != slot && f != it && f != next;
      assert NextOf([slot] + free, k + 1) == NextOf(free, k);
      assert nexts[f] == NextOf(free, k) && prevs[f] == f;
    }
  }

  /** The free chain once an unlinked slot has been pushed on its front. */
  lemma {:induction false} UnspliceFree(nexts: seq<nat>, prevs: seq<nat>, free: seq<nat>, s: nat, prev: nat, next: nat, firstFree: nat)
    requires FreeLinked(nexts, prevs, free)
    requires s !in free && prev !in free && next !in free
    requires s < |nexts| && s < |prevs| && prev < |nexts| && next < |prevs|
    requires firstFree == FirstOr0(free)
    ensures FreeLinked(nexts[prev := next][s := firstFree], prevs[next := prev][s := s], [s] + free)
  {
    ConsIndex(s, free);
    forall j | 0 <= j < |[s] + free|
      ensures nexts[prev := next][s := firstFree][([s] + free)[j]] == NextOf([s] + free, j)
      ensures prevs[next := prev][s := s][([s] + free)[j]] == ([s] + free)[j]
    {
      if j > 0 {
        assert nexts[free[j - 1]] == NextOf(free, j - 1);
        assert prevs[free[j - 1]] == free[j - 1];
      }
    }
  }

  /** Appending the first free slot of an ordered layout keeps it ordered. */
  lemma InOrderTake(size: nat, live: seq<nat>, free: seq<nat>, slot: nat)
    requires InOrder(size, live, [slot] + free) && |live| + 1 == size
    ensures InOrder(size + 1, Insert(live, |live|, slot), free)
  {
    ConsIndex(slot, free);
    InsertIndex(live, |live|, slot);
  }

  /** The neighbours of the gap after iterator `it`: `it` itself and its successor. */
  lemma Neighbours(nexts: seq<nat>, prevs: seq<nat>, live: seq<nat>, it: nat, capacity: nat)
    requires |nexts| == capacity && 1 <= capacity && InSlots(live, capacity)
    requires Linked(nexts, prevs, live) && nexts[0] == FirstOr0(live)
    requires it == 0 || it in live
    ensures it < capacity
    ensures it == (if PositionAfter(live, it) == 0 then 0 else live[PositionAfter(live, it) - 1])
    ensures nexts[it] == (if PositionAfter(live, it) < |live| then live[PositionAfter(live, it)] else 0)
  {
    if it != 0 {
      var k := IndexOf(live, it);
      assert nexts[live[k]] == NextOf(live, k);
    }
  }

  /** The links of both chains after `list_insert_after` splices the first
      free slot in after `it`. */
  lemma {:induction false} SpliceAfter(nexts: seq<nat>, prevs: seq<nat>, live: seq<nat>, free: seq<nat>, it: nat, slot: nat, capacity: nat)
    requires |nexts| == capacity && |prevs| == capacity && 1 <= capacity
    requires Partition(live, [slot] + free, capacity)
    requires Linked(nexts, prevs, live) && FreeLinked(nexts, prevs, [slot] + free)
    requires nexts[0] == FirstOr0(live) && prevs[0] == LastOr0(live)
    requires it == 0 || it in live
    ensures it < capacity && slot < capacity && nexts[it] < capacity
    ensures var live' := Insert(live, PositionAfter(live, it), slot);
            var nexts' := nexts[slot := nexts[it]][it := slot];
            var prevs' := prevs[slot := it][nexts[it] := slot];
            && Linked(nexts', prevs', live') && FreeLinked(nexts', prevs', free)
            && nexts'[0] == FirstOr0(live') && prevs'[0] == LastOr0(live')
  {
    var pos := PositionAfter(live, it);
    PartitionTake(live, free, slot, pos, capacity);
    InsertIndex(live, pos, slot);
    ConsIndex(slot, free);
    Neighbours(nexts, prevs, live, it, capacity);
    var next := nexts[it];
    NoSentinel(free, capacity);
    NoSentinel(live, capacity);
    if pos > 0 {
      DisjointNotIn(live, free, pos - 1);
    }
    if pos < |live| {
      DisjointNotIn(live, free, pos);
    }
    SpliceLinks(nexts, prevs, live, pos, slot, it, next);
    SpliceFree(nexts, prevs, free, slot, it, next);
  }

  /** Splicing the popped slot in after `it` yields a well-formed list whose
      live chain has the slot at the position following `it`. */
  lemma {:induction false} LinkAfterKeepsShape<T>(l: Layout<T>, live: seq<nat>, free: seq<nat>, it: nat, slot: nat, value: T)
    requires Popped(l, live, free, slot)
    requires it == 0 || it in live
    ensures it < |l.nexts| && slot < |l.nexts| && l.nexts[it] < |l.prevs|
    ensures Represents(LinkAfter(l, it, slot, value), Insert(live, PositionAfter(live, it), slot), free)
  {
    ConsIndex(slot, free);
    var pos := PositionAfter(live, it);
    PartitionTake(live, free, slot, pos, l.capacity);
    InsertIndex(live, pos, slot);
    SpliceAfter(l.nexts, l.prevs, live, free, it, slot, l.capacity);
    if l.normalized && l.nexts[it] == 0 {
      InOrderTake(l.size - 1, live, free, slot);
    }
  }

  /** Unlinking the element at position k of the live chain and pushing its
      slot on the front of the free chain yields a well-formed list. */
  lemma {:induction false} UnlinkKeepsShape<T>(l: Layout<T>, live: seq<nat>, free: seq<nat>, k: nat)
    requires Represents(l, live, free)
    requires k < |live|
    ensures live[k] < |l.nexts| && l.nexts[live[k]] < |l.nexts| && l.prevs[live[k]] < |l.nexts|
    ensures Represents(Unlink(l, live[k]), Remove(live, k), [live[k]] + free)
  {
    PartitionGive(live, free, k, l.capacity);
    UnspliceLinks(l.nexts, l.prevs, live, k, l.firstFree);
    UnspliceFree(l.nexts, l.prevs, free, live[k], PrevOf(live, k), NextOf(live, k), l.firstFree);
    RemoveIndex(live, k);
    ConsIndex(live[k], free);
  }

  /** The layout `list_create` builds and `list_normalize` restores: element
      k + 1 in slot k + 1, the free slots threaded in increasing order from
      slot `size`, the last of them closing the chain. */
  ghost predicate Ordered<T>(l: Layout<T>)
  {
    && Sized(l) && 1 <= l.size <= l.capacity && 1 <= l.elemSize
    && l.head == (if l.size > 1 then 1 else 0) && l.tail == l.size - 1
    && l.nexts[0] == l.head && l.prevs[0] == l.tail
    && (forall s :: 1 <= s < l.size ==> l.nexts[s] == (s + 1) % l.size && l.prevs[s] == s - 1)
    && (forall s :: l.size <= s < l.capacity ==> l.nexts[s] == (s + 1) % l.capacity && l.prevs[s] == s)
    && l.firstFree == (if l.size < l.capacity || l.size == 1 then l.size else 0)
  }

  /** The slots 1 .. size - 1 and size .. capacity - 1 partition the slots. */
  lemma RangePartition(size: nat, capacity: nat)
    requires 1 <= size <= capacity
    ensures Partition(Range(1, size), Range(size, capacity), capacity)
  {
    var live := Range(1, size);
    var free := Range(size, capacity);
    forall s | 0 < s < capacity
      ensures s in live || s in free
    {
      if s < size {
        assert live[s - 1] == s;
      } else {
        assert free[s - size] == s;
      }
    }
  }

  /** The successor of slot s in a ring of n slots. */
  lemma ModNext(s: nat, n: nat)
    requires s < n
    ensures (s + 1) % n == if s + 1 < n then s + 1 else 0
  {
  }

  lemma {:induction false} OrderedLive(nexts: seq<nat>, prevs: seq<nat>, size: nat)
    requires 1 <= size <= |nexts| && size <= |prevs|
    requires forall s :: 1 <= s < size ==> nexts[s] == (s + 1) % size && prevs[s] == s - 1
    ensures Linked(nexts, prevs, Range(1, size))
  {
    var live := Range(1, size);
    forall k | 0 <= k < |live|
      ensures nexts[live[k]] == NextOf(live, k) && prevs[live[k]] == PrevOf(live, k)
    {
      ModNext(k + 1, size);
    }
  }

  lemma {:induction false} OrderedFree(nexts: seq<nat>, prevs: seq<nat>, size: nat, capacity: nat)
    requires size <= capacity <= |nexts| && capacity <= |prevs|
    requires forall s :: size <= s < capacity ==> nexts[s] == (s + 1) % capacity && prevs[s] == s
    ensures FreeLinked(nexts, prevs, Range(size, capacity))
  {
    var free := Range(size, capacity);
    forall k | 0 <= k < |free|
      ensures nexts[free[k]] == NextOf(free, k) && prevs[free[k]] == free[k]
    {
      ModNext(size + k, capacity);
    }
  }

  /** An ordered layout is well formed, with the elements in slots 1 .. size - 1. */
  lemma {:induction false} OrderedRepresents<T>(l: Layout<T>)
    requires Ordered(l)
    ensures Represents(l, Range(1, l.size), Range(l.size, l.capacity))
  {
    RangePartition(l.size, l.capacity);
    OrderedLive(l.nexts, l.prevs, l.size);
    OrderedFree(l.nexts, l.prevs, l.size, l.capacity);
  }

  /** The `nexts` array of the ordered layout: the elements linked in slot
      order from slot 1 (slot 0 pointing at the first), then the free slots
      from slot `size` on, each pointing at the next, the last at 0. */
  function OrderedNexts(size: nat, capacity: nat): (r: seq<nat>)
    requires 1 <= size <= capacity
    ensures |r| == capacity
  {
    seq(capacity, s => if s == 0 then (if size > 1 then 1 else 0)
                       else if s < size then (s + 1) % size
                       else (s + 1) % capacity)
  }

  /** The `prevs` array of the ordered layout: each element points back at
      the slot before it (slot 0 at the last element), each free slot at itself. */
  function OrderedPrevs(size: nat, capacity: nat): (r: seq<nat>)
    requires 1 <= size <= capacity
    ensures |r| == capacity
  {
    seq(capacity, s => if s == 0 then size - 1 else if s < size then s - 1 else s)
  }

  /** A layout whose link arrays are those of the ordered layout is ordered. */
  lemma LinksOrdered<T>(l: Layout<T>)
    requires 1 <= l.size <= l.capacity && 1 <= l.elemSize && |l.data| == l.capacity
    requires l.nexts == OrderedNexts(l.size, l.capacity) && l.prevs == OrderedPrevs(l.size, l.capacity)
    requires l.head == (if l.size > 1 then 1 else 0) && l.tail == l.size - 1
    requires l.firstFree == (if l.size < l.capacity || l.size == 1 then l.size else 0)
    ensures Ordered(l)
  {
  }
}
