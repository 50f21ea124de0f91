/** The sequence of calls the `test` routine of `example/example.c` makes on
    a list created with room for two `int` values, one method per call, and
    the list it leaves. */
module ListExample {
  import opened ListTypes
  import opened ListLayout
  import opened ListEdit
  import opened ListNormalize
  import opened DoublyLinkedList

  /** A list of fewer than ten elements can always take one more: either a
      slot is free or the grown arrays fit in memory. */
  lemma Roomy(lst: List<int>)
    requires lst.Valid() && lst.Size() < 10
    ensures !lst.CannotGrow(true)
  {
  }

  /** `list_insert_after(lst, list_head(lst), &1)` on the empty list. */
  method InsertOne(lst: List<int>)
    requires lst.Valid() && lst.Contents == []
    modifies lst, lst.data, lst.nexts, lst.prevs
    ensures lst.Valid() && lst.Contents == [1]
    ensures lst.data == old(lst.data) || fresh(lst.data)
    ensures lst.nexts == old(lst.nexts) || fresh(lst.nexts)
    ensures lst.prevs == old(lst.prevs) || fresh(lst.prevs)
  {
    Roomy(lst);
    var err := lst.InsertAfter(lst.Head(), 1, true);
  }

  /** `list_insert_after(lst, list_head(lst), &20)`: after the first element. */
  method InsertTwenty(lst: List<int>)
    requires lst.Valid() && lst.Contents == [1]
    modifies lst, lst.data, lst.nexts, lst.prevs
    ensures lst.Valid() && lst.Contents == [1, 20]
    ensures lst.data == old(lst.data) || fresh(lst.data)
    ensures lst.nexts == old(lst.nexts) || fresh(lst.nexts)
    ensures lst.prevs == old(lst.prevs) || fresh(lst.prevs)
  {
    Roomy(lst);
    InsertEnds([1], 20);
    var err := lst.InsertAfter(lst.Head(), 20, true);
  }

  /** `list_insert_to_tail(lst, &4)`: the list is full, so it grows. */
  method InsertFour(lst: List<int>)
    requires lst.Valid() && lst.Contents == [1, 20]
    modifies lst, lst.data, lst.nexts, lst.prevs
    ensures lst.Valid() && lst.Contents == [1, 20, 4]
    ensures lst.data == old(lst.data) || fresh(lst.data)
    ensures lst.nexts == old(lst.nexts) || fresh(lst.nexts)
    ensures lst.prevs == old(lst.prevs) || fresh(lst.prevs)
  {
    Roomy(lst);
    var err := lst.InsertToTail(4, true);
  }

  /** `list_insert_before(lst, list_tail(lst), &3)`: before the last element. */
  method InsertThree(lst: List<int>)
    requires lst.Valid() && lst.Contents == [1, 20, 4]
    modifies lst, lst.data, lst.nexts, lst.prevs
    ensures lst.Valid() && lst.Contents == [1, 20, 3, 4]
    ensures lst.data == old(lst.data) || fresh(lst.data)
    ensures lst.nexts == old(lst.nexts) || fresh(lst.nexts)
    ensures lst.prevs == old(lst.prevs) || fresh(lst.prevs)
  {
    Roomy(lst);
    IndexOfDistinct(lst.Live, 2);
    assert Insert([1, 20, 4], 2, 3) == [1, 20, 3, 4];
    var err := lst.InsertBefore(lst.Tail(), 3, true);
  }

  /** `list_insert_to_tail(lst, &50)`. */
  method InsertFifty(lst: List<int>)
    requires lst.Valid() && lst.Contents == [1, 20, 3, 4]
    modifies lst, lst.data, lst.nexts, lst.prevs
    ensures lst.Valid() && lst.Contents == [1, 20, 3, 4, 50]
    ensures lst.data == old(lst.data) || fresh(lst.data)
    ensures lst.nexts == old(lst.nexts) || fresh(lst.nexts)
    ensures lst.prevs == old(lst.prevs) || fresh(lst.prevs)
  {
    Roomy(lst);
    var err := lst.InsertToTail(50, true);
  }

  /** `list_erase_by_index(lst, 4)`: the last element goes. */
  method EraseFifty(lst: List<int>)
    requires lst.Valid() && lst.Contents == [1, 20, 3, 4, 50]
    modifies lst, lst.nexts, lst.prevs
    ensures lst.Valid() && lst.Contents == [1, 20, 3, 4]
    ensures lst.data == old(lst.data) && lst.nexts == old(lst.nexts) && lst.prevs == old(lst.prevs)
  {
    var err := lst.EraseByIndex(4);
  }

  /** `list_erase_by_value(lst, &20)`. */
  method EraseTwenty(lst: List<int>)
    requires lst.Valid() && lst.Contents == [1, 20, 3, 4]
    modifies lst, lst.nexts, lst.prevs
    ensures lst.Valid() && lst.Contents == [1, 3, 4]
    ensures lst.data == old(lst.data) && lst.nexts == old(lst.nexts) && lst.prevs == old(lst.prevs)
  {
    assert IndexOf([1, 20, 3, 4], 20) == 1;
    var err := lst.EraseByValue(20);
    assert lst.Contents == Remove([1, 20, 3, 4], 1);
  }

  /** The elements of a list, read with `list_element_at` and `list_get`. */
  method ReadAll(lst: List<int>) returns (values: seq<int>)
    requires lst.Valid()
    ensures values == lst.Contents
  {
    values := [];
    var n := lst.Size();
    for i := 0 to n
      invariant values == lst.Contents[..i]
    {
      var it := lst.ElementAt(i);
      IndexOfDistinct(lst.Live, i);
      values := values + [lst.Get(it).value];
    }
  }

  /** `main` creates the list; `test` inserts its five values. */
  method Build() returns (lst: List<int>)
    ensures fresh(lst) && fresh(lst.data) && fresh(lst.nexts) && fresh(lst.prevs)
    ensures lst.Valid() && lst.Contents == [1, 20, 3, 4, 50]
  {
    lst := List<int>.Create(2, 4, true);
    InsertOne(lst);
    InsertTwenty(lst);
    InsertFour(lst);
    InsertThree(lst);
    InsertFifty(lst);
  }

  /** `test` erases two elements and ends with `list_normalize`; the
      elements are then read back by index. */
  method Example() returns (values: seq<int>)
    ensures values == [1, 3, 4]
  {
    var lst := Build();
    EraseFifty(lst);
    EraseTwenty(lst);
    lst.Normalize();
    values := ReadAll(lst);
  }
}
