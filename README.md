# Index-based doubly linked list, modelled in Dafny

This project models the list engine of `src/list.c` (with the record, error
codes and growth constant of `src/list.h`). The engine keeps a doubly linked
list in three co-indexed arrays: payloads `data`, forward links `nexts` and
backward links `prevs`. Slot 0 is a sentinel that closes the list into a
cycle, so `nexts[0]` is the head and `prevs[0]` the tail. A slot is free
exactly when its `prevs` entry points at itself. The free slots form a chain
through `nexts` that starts at `first_free` and ends at 0. `size` counts the
sentinel, and `normalized` promises that element k sits in slot k.

Layout of the project:

- `list_types.dfy` (`ListTypes`): the error codes with their numbers,
  `CAPACITY_COEFF`, the 64-bit `size_t` range and the iterator type.
- `list_layout.dfy` (`ListLayout`): the record as a value (`Layout`). It holds
  the invariant `Represents(l, live, free)`: `live` lists the slots of the
  elements in list order and `free` the free chain, and the links agree with
  both. It also holds the layout effect of one insertion (`LinkAfter`) and one
  erasure (`Unlink`), with proofs that both keep the invariant.
- `list_verify.dfy` (`ListVerify`): `list_verify_func_` as a function of the
  record, and the proof that every well-formed record passes it.
- `list_normalize.dfy` (`ListNormalize`): the loop invariant of the
  renumbering in `list_normalize`, and the proof that each step keeps it.
- `list_capacity.dfy` (`ListCapacity`): the layout effect of growing and of
  shrinking in `list_change_capacity`.
- `list_edit.dfy` (`ListEdit`): insertion and erasure stated on the element
  sequence.
- `list.dfy` (`DoublyLinkedList`): the class `List`, which holds the three
  arrays and the bookkeeping fields. Its methods follow the C functions one by
  one. Ghost fields `Live`, `Free` and `Contents` say what the arrays encode.
  `Valid()` ties them together, and every operation is specified by its
  effect on `Contents`.
- `as_written.dfy` (`ListAsWritten`): the routines of `src/list.c` whose code
  breaks the invariant, modelled exactly as written. Each comes with a
  concrete list on which the defect shows (see "## Findings").
- `example.dfy` (`ListExample`): the call sequence of `example/example.c` on
  the class. It ends with the elements `[1, 3, 4]`.

Two behaviours of the code that a reader may not expect:

- `list_get` (src/list.c:235-244) refuses only iterators that fail
  `list_check_iterator`. The sentinel passes that check, so `list_get` of
  iterator 0 returns the sentinel's scratch payload, not NULL.
- In `example/example.c:32-33`, `list_insert_before(list_tail)` puts 3
  before the last element 4, so the example ends with `[1, 3, 4]`.

The allocator is an `allocOk: bool` parameter wherever the C code allocates.
An allocation of `SlotLimit` link entries or more (the 64-bit address space
divided by the size of a `size_t`) always fails.

## Model

| member | source | states |
|---|---|---|
| ListTypes.ListError.Code | src/list.h:62-78 | every error code is a number up to 12, and only LIST_NO_ERR is 0 |
| ListLayout.FreeMarker | src/list.c:597-600 | in a well-formed record a non-sentinel slot is live exactly when `prevs[s] != s` and free exactly when `prevs[s] == s` |
| ListLayout.RepresentsAddressable | src/list.c:384-400 | every link of a well-formed record names a slot inside the arrays |
| ListLayout.PartitionTake | src/list.c:155-157 | the slot taken from the front of the free chain can be put anywhere in the live sequence, and every slot stays in exactly one of the two |
| ListLayout.PartitionGive | src/list.c:499-501 | an erased element's slot pushed on the front of the free chain keeps every slot in exactly one of the two |
| ListLayout.SpliceLinks | src/list.c:265-268 | the four link writes of `list_insert_after` link the new slot between `it` and its successor, and the live chain with the slot inserted is linked both ways |
| ListLayout.UnspliceLinks | src/list.c:493-499 | linking an erased element's neighbours to each other leaves the live chain without that element linked both ways |
| ListLayout.SpliceFree | src/list.c:265-268 | the insertion writes leave the rest of the free chain intact |
| ListLayout.UnspliceFree | src/list.c:499-501 | the erased slot, pointed at the old first_free and self-marked, heads a valid free chain |
| ListLayout.InOrderTake | src/list.c:270-271 | appending the first free slot of a normalized list keeps it normalized |
| ListLayout.LinkAfterKeepsShape | src/list.c:262-275 | `list_insert_after` on a taken slot gives a well-formed record whose live sequence has the slot right after `it` (at the front for the sentinel) |
| ListLayout.UnlinkKeepsShape | src/list.c:493-514 | `list_erase` of the element at position k gives a well-formed record without that slot, which now heads the free chain |
| ListLayout.RangePartition | src/list.c:697-707 | slots 1 .. size-1 and size .. capacity-1 cover every non-sentinel slot exactly once |
| ListLayout.OrderedLive | src/list.c:680-682 | slots 1 .. size-1 with `nexts[s] = (s+1) % size` and `prevs[s] = s-1` form the live chain in slot order |
| ListLayout.OrderedFree | src/list.c:704-707 | slots size .. capacity-1 with `nexts[s] = (s+1) % capacity` and `prevs[s] = s` form a free chain in slot order |
| ListLayout.OrderedRepresents | src/list.c:697-707 | the layout `list_normalize` (and `list_create`) leaves is well formed, with elements in slots 1 .. size-1 and the free slots after them |
| ListLayout.LinksOrdered | src/list.c:697-707 | a record with the ordered link arrays and with head, tail and first_free as `list_normalize` sets them has the ordered layout |
| ListVerify.FreeWalkFrom | src/list.c:384-391 | the free-chain walk of `list_verify` succeeds from every position of a well-formed free chain |
| ListVerify.BusyWalkFrom | src/list.c:393-400 | the live-chain walk of `list_verify` succeeds from every position of a well-formed live chain |
| ListVerify.RepresentsVerifies | src/list.c:349-403 | every well-formed record passes `list_verify` with LIST_NO_ERR |
| ListNormalize.SwapData | src/list.c:165-178 | `list_swap_vals` exchanges the payloads of slots a and b and leaves every other non-sentinel slot alone |
| ListNormalize.NormStart | src/list.c:673-675 | a well-formed list of at least one element meets the renumbering invariant at i = 1 with the cursor at the head |
| ListNormalize.NormEnd | src/list.c:673-695 | once i reaches size, slots 1 .. size-1 hold the elements in order with their final links |
| ListNormalize.AdvanceKeeps | src/list.c:676-682 | when slot i already holds the i-th element, fixing its links and moving on keeps the invariant |
| ListNormalize.MovedHolds | src/list.c:686 | after the swap every element is still stored in its (updated) slot |
| ListNormalize.MovedNexts | src/list.c:684-690 | corrected: after a move the forward links of the elements not yet placed are those of the list |
| ListNormalize.MovedPrevs | src/list.c:692 | corrected: after a move the backward links of the later elements are those of the list |
| ListNormalize.MovedPlaced | src/list.c:692-693 | corrected: after a move slots 1 .. i carry their final links |
| ListNormalize.MovedFree | src/list.c:684-693 | corrected: after a move every slot holding no element is still marked free |
| ListNormalize.RelocateKeeps | src/list.c:684-694 | corrected: moving the i-th element from slot `it` into slot i keeps the renumbering invariant, and the loop goes on at the slot of the next element |
| ListCapacity.InOrderRanges | src/list.h:49-52 | a normalized list's live slots are exactly 1 .. size-1 and its free chain is size .. capacity-1 |
| ListCapacity.NormalizedOrdered | src/list.c:417-418 | a normalized list with a free slot already has the ordered layout |
| ListCapacity.Truncated | src/list.c:424-434 | corrected: cutting an ordered record to n slots gives arrays of n entries, the last kept free slot closing the chain and first_free 0 when no free slot is left |
| ListCapacity.TruncatedOrdered | src/list.c:424-434 | corrected: an ordered record cut after its elements is still ordered |
| ListCapacity.ShrinkWellFormed | src/list.c:417-458 | corrected: shrinking a normalized list to n >= size slots, the last free slot closing the chain, gives a well-formed normalized list of the same elements |
| ListCapacity.GrowPartition | src/list.c:445-449 | appending the new slots to the free chain keeps every slot in exactly one of live and free |
| ListCapacity.GrowLive | src/list.c:444-449 | corrected: the live links are untouched by growing |
| ListCapacity.GrowFree | src/list.c:438-449 | corrected: the old free chain, its last slot pointed at the old capacity, continues through the new slots in order |
| ListCapacity.GrowInOrder | src/list.c:445-449 | growing a normalized list keeps the order the flag promises |
| ListCapacity.GrowKeepsShape | src/list.c:436-458 | corrected: the grown record is well formed, with the same live chain and the new slots appended to the free chain |
| ListCapacity.GrowWellFormed | src/list.c:432-458 | corrected: the grown record holds the same elements along the same live chain |
| ListCapacity.HoldsCopy | src/list.c:432 | copying the arrays' first entries keeps every element where it was |
| ListEdit.HoldsInsert | src/list.c:262-263 | writing the value into the taken slot stores the contents with the value inserted at its position |
| ListEdit.HoldsRemove | src/list.c:493-514 | erasing an element leaves the others stored where they were |
| ListEdit.ClearedWellFormed | src/list.c:579-593 | one sentinel slot linked to itself is a well-formed empty list |
| ListEdit.InsertEnds | src/list.c:292-309 | inserting at position 0 prepends and at the end appends |
| ListEdit.IndexOfDistinct | src/list.c:560-575 | in a list of distinct slots, the slot at position k is found at position k |
| ListEdit.TakeFirstFree | src/list.c:155-157 | taking first_free and moving first_free to `nexts[first_free]` leaves the record in the state before linking |
| ListEdit.LinkAfterWellFormed | src/list.c:247-278 | `list_insert_after` keeps the list well formed; the value lands right after `it`, and the slot's successor is 0 exactly when the value is appended |
| ListEdit.UnlinkWellFormed | src/list.c:483-516 | `list_erase` keeps the list well formed; the element leaves the contents; the slot was the tail exactly when the element was the last |
| ListEdit.PositionBefore | src/list.c:281-289 | inserting after the predecessor of the element at position k puts the value at position k |
| DoublyLinkedList.List.Init | src/list.c:192-212 | the fresh record is a valid empty list: size 1, head = tail = 0, first_free = 1, normalized, every other slot free in order |
| DoublyLinkedList.List.Create | src/list.c:181-218 | for a start capacity below SIZE_MAX: no list exactly when the element size is 0 or an allocation fails; otherwise a valid empty list with capacity start+1, every other slot on the free chain |
| DoublyLinkedList.List.CheckIteratorMeansLive | src/list.c:597-600 | on a valid list an iterator passes the check exactly when it is the sentinel or the slot of an element |
| DoublyLinkedList.List.OnElementMeansLive | src/list.c:603-606 | an iterator that passes the check and is on an element is the slot of an element, and conversely |
| DoublyLinkedList.List.Get | src/list.c:235-244 | no value exactly for a non-sentinel iterator that is not an element's slot; the sentinel yields its scratch payload; an element's slot yields that element |
| DoublyLinkedList.List.Next | src/list.c:312-321 | the slot of the following element (0 after the last); 0 for the sentinel; LIST_BAD_ITERATOR's code for any other slot |
| DoublyLinkedList.List.Prev | src/list.c:324-333 | the slot of the preceding element (0 before the first); 0 for the sentinel; LIST_BAD_ITERATOR's code otherwise |
| DoublyLinkedList.List.Head | src/list.c:465-471 | the slot of the first element, 0 for an empty list |
| DoublyLinkedList.List.Tail | src/list.c:474-480 | the slot of the last element, 0 for an empty list |
| DoublyLinkedList.List.Size | src/list.c:754-757 | the number of elements |
| DoublyLinkedList.List.Capacity | src/list.c:760-763 | the number of elements plus the number of free slots |
| DoublyLinkedList.List.IsNormalized | src/list.c:712-718 | when set, element k sits in slot k+1 |
| DoublyLinkedList.List.Verify | src/list.c:349-403 | the error is the first failing check in the C order (`VerifyLayout`), and a valid list gets LIST_NO_ERR |
| DoublyLinkedList.List.FreeFieldsOk | src/list.c:383-391 | the loop over the free chain answers as the free walk with its counter |
| DoublyLinkedList.List.BusyFieldsOk | src/list.c:393-400 | the loop over the live chain answers as the live walk with its counter |
| DoublyLinkedList.List.SwapVals | src/list.c:165-178 | the payload array becomes `SwapData` of the old one |
| DoublyLinkedList.List.MoveIntoPlace | src/list.c:684-694 | corrected: the record after one move step is `RelocateStep` of the old one, and the cursor moves to the old successor of `it` (or `it` itself when that successor was i) |
| DoublyLinkedList.List.RelinkNexts | src/list.c:684-693 | corrected: the forward links after a move are `RelocNexts` of the old ones |
| DoublyLinkedList.List.RelinkPrevs | src/list.c:692 | corrected: the backward links after a move are `RelocPrevs` of the old ones |
| DoublyLinkedList.List.RenumberStep | src/list.c:676-694 | corrected: one pass of the loop keeps the renumbering invariant with i advanced |
| DoublyLinkedList.List.Renumber | src/list.c:673-695 | corrected: after the loop, slots 1 .. size-1 hold the contents in order and carry the ordered links |
| DoublyLinkedList.List.Normalize | src/list.c:658-709 | corrected: same contents, elements in slots 1 .. size-1, free slots size .. capacity-1 in order, flag set; a list already normalized is left untouched |
| DoublyLinkedList.List.SetOrdered | src/list.c:697-702 | head = 1, tail = size-1 and first_free = size (0 when full) make the ordered arrays a valid normalized list |
| DoublyLinkedList.List.RelinkInOrder | src/list.c:673-707 | corrected: the array writes of the renumbering and rethreading leave exactly the ordered link arrays and the contents in slots 1 .. size-1 |
| DoublyLinkedList.List.FreeChainEnd | src/list.c:438-442 | the walk along `nexts` from first_free stops at the last slot of the free chain |
| DoublyLinkedList.List.Install | src/list.c:451-458 | the record takes over new arrays and the new first_free and is valid with the same elements |
| DoublyLinkedList.List.GrownArrays | src/list.c:424-449 | corrected: the new arrays hold the old entries, the free chain's end pointed at the old capacity, and the new slots threaded in order |
| DoublyLinkedList.List.CopiedLinks | src/list.c:432-444 | corrected: the copied forward links with the free chain's end pointed at the old capacity |
| DoublyLinkedList.List.Grow | src/list.c:436-458 | corrected: valid, same elements along the same live chain, capacity n, and the new slots appended to the free chain |
| DoublyLinkedList.List.ShrunkArrays | src/list.c:424-434 | corrected: the new arrays hold the first n entries, the last kept free slot closing the chain |
| DoublyLinkedList.List.Shrink | src/list.c:417-458 | corrected: valid, normalized, same elements in slots 1 .. size-1, capacity n and free slots size .. n-1 |
| DoublyLinkedList.List.Reallocate | src/list.c:424-458 | fresh copies of the arrays with identical entries; nothing else changes |
| DoublyLinkedList.List.ChangeCapacity | src/list.c:408-462 | corrected (growth and shrink): LIST_BAD_CAPACITY (nothing changed) exactly when n+1 < size; LIST_ALLOC_ERR exactly when an allocation fails; LIST_NO_ERR sets capacity n+1; the elements never change; shrinking leaves the list normalized; growing appends the new slots to the free chain |
| DoublyLinkedList.List.Resize | src/list.c:424-461 | corrected: the list moves into arrays of n slots with the same elements, the free slots following the corrected growth or shrink |
| DoublyLinkedList.List.Commit | src/list.c:270-275 | the bookkeeping fields are stored and the record is valid |
| DoublyLinkedList.List.EnsureRoom | src/list.c:147-152 | LIST_ALLOC_ERR (nothing changed) exactly when the list is full and cannot grow; a list with a free slot is left untouched (same arrays, capacity and free chain); a full list grows to CAPACITY_COEFF times its capacity plus one, its free chain is exactly the new slots in order, and the first of them is free |
| DoublyLinkedList.List.SetTaken | src/list.c:156-157 | size and first_free take the counted and advanced values, and the free chain its tail |
| DoublyLinkedList.List.TakeSlot | src/list.c:155-157 | the old first_free is handed out, first_free moves along the chain, the free chain loses its first slot and size grows by one |
| DoublyLinkedList.List.RemoveFirstFree | src/list.c:140-160 | LIST_ALLOC_ERR (nothing changed) exactly when the list is full and cannot grow; otherwise the handed-out slot is the old first_free, or the old capacity when the list was full; `TookSlot`: size grows by one, a list with a free slot keeps its arrays and capacity and loses the head of its free chain, a full list grows to CAPACITY_COEFF times its capacity plus one with the new slots after the taken one as its free chain |
| DoublyLinkedList.List.Splice | src/list.c:262-268 | after the link writes the arrays hold a well-formed list with the value inserted after `it` |
| DoublyLinkedList.List.SpliceWrites | src/list.c:262-268 | the payload and link entries after the four writes, made in the C order |
| DoublyLinkedList.List.InsertAfter | src/list.c:247-278 | LIST_BAD_ITERATOR exactly for a non-sentinel slot that is not an element's; LIST_ALLOC_ERR exactly when growth fails; either leaves the list unchanged; otherwise the value is inserted right after `it` (at the front for the sentinel), and the flag survives only an append; on success `TookSlot` (slot allocation and capacity growth as for RemoveFirstFree) |
| DoublyLinkedList.List.InsertTaken | src/list.c:257-277 | the same, once the iterator has passed the check; on success `TookSlot` (slot allocation and capacity growth as for RemoveFirstFree) |
| DoublyLinkedList.List.LinkIn | src/list.c:262-275 | the taken slot holds the value right after `it`; tail, head and flag follow; size, capacity, element size and free chain are unchanged |
| DoublyLinkedList.List.InsertBefore | src/list.c:281-289 | the value takes the position of the element at `it`, or goes at the end for the sentinel, in the slot first_free names (the old capacity when the list was full); the flag survives only for the sentinel; a free slot is refused; on success `TookSlot` (slot allocation and capacity growth as for RemoveFirstFree) |
| DoublyLinkedList.List.PredecessorOf | src/list.c:288 | the `prevs` entry read is the previous element's slot (the tail for the sentinel) and passes the check exactly when `it` does |
| DoublyLinkedList.List.InsertToHead | src/list.c:292-299 | the value becomes the first element, in the slot first_free names (the old capacity when full); the flag survives only on an empty list; or LIST_ALLOC_ERR with nothing changed; on success `TookSlot` (slot allocation and capacity growth as for RemoveFirstFree) |
| DoublyLinkedList.List.InsertToTail | src/list.c:302-309 | the value becomes the last element, in the slot first_free names (the old capacity when full), and the flag is kept; or LIST_ALLOC_ERR with nothing changed; on success `TookSlot` (slot allocation and capacity growth as for RemoveFirstFree) |
| DoublyLinkedList.List.Unsplice | src/list.c:493-502 | the link arrays after the four writes of `list_erase` |
| DoublyLinkedList.List.Erase | src/list.c:483-516 | LIST_BAD_ITERATOR exactly for a non-sentinel slot that is not an element's; the sentinel erases nothing; otherwise the element leaves the contents, its slot heads the free chain, the cursor is the successor or else the predecessor, and the flag survives only erasing the last |
| DoublyLinkedList.List.Detach | src/list.c:493-514 | the element at position k leaves the contents and its slot heads the free chain |
| DoublyLinkedList.List.Find | src/list.c:541-557 | the slot of the first element equal to the value, 0 when there is none |
| DoublyLinkedList.List.ElementAt | src/list.c:560-576 | the slot of the element at the index; LIST_BAD_INDEX's code past the end; SIZE_MAX wraps to the sentinel or the head |
| DoublyLinkedList.List.OrderedSlot | src/list.c:566-567 | in a normalized list element k sits in slot k+1 |
| DoublyLinkedList.List.Walk | src/list.c:569-573 | i-1 steps from the head reach the slot of the i-th element |
| DoublyLinkedList.List.EraseByValue | src/list.c:519-528 | the first element equal to the value is erased, its slot heads the free chain and the flag survives only erasing the last element; an absent value changes nothing; the result is always LIST_NO_ERR |
| DoublyLinkedList.List.EraseByIndex | src/list.c:531-538 | as written: an index in range erases that element; one past the end erases the element in slot 3, if there is one, else LIST_BAD_ITERATOR; SIZE_MAX erases the first element of an unnormalized list; each erasure pushes the freed slot on the free chain and keeps the flag only for the last element |
| DoublyLinkedList.List.EraseAt | src/list.c:531-538 | corrected: LIST_NO_ERR exactly for an index in range, which erases that element, pushes its slot on the free chain and keeps the flag only for the last element; LIST_BAD_INDEX with nothing changed otherwise |
| DoublyLinkedList.List.SentinelArrays | src/list.c:588-589 | one-slot arrays holding the scratch payload, the sentinel linked to itself |
| DoublyLinkedList.List.Clear | src/list.c:579-594 | corrected: a valid empty list of capacity 1, normalized; LIST_ALLOC_ERR with nothing changed when allocation fails |
| DoublyLinkedList.Reallocated | src/list.c:424-434 | a fresh array of n entries holding the first entries of the source, as many as both have (the C copy reads past the old array when growing) |
| DoublyLinkedList.CopyPrefix | src/list.c:432-434 | the first m entries are copied |
| DoublyLinkedList.ThreadSlots | src/list.c:445-449 | the slots from `lo` on are chained in order and marked free; the entries before `lo` are kept |
| DoublyLinkedList.ThreadedOrdered | src/list.c:704-707 | links threaded in order from `lo` are those of the ordered layout |
| DoublyLinkedList.HoldsOrdered | src/list.c:697-698 | elements in slots 1 .. size-1 in order are the contents of the ordered live sequence |
| ListAsWritten.SwapAsWritten | src/list.c:165-178 | the three copies through slot 0 equal `SwapData` for non-sentinel slots |
| ListAsWritten.NormalizeStepAsWritten | src/list.c:676-694 | one pass of the C loop keeps links inside the arrays and keeps size, capacity and flag |
| ListAsWritten.NormalizeLoopAsWritten | src/list.c:673-695 | the C loop keeps links inside the arrays and keeps size, capacity and flag |
| ListAsWritten.Rethread | src/list.c:704-707 | every slot from `from` on points at the next (the last at 0) and is marked free; the others are kept |
| ListAsWritten.NormalizeAsWritten | src/list.c:658-709 | `list_normalize` as written always ends with the flag set and size and capacity kept |
| ListAsWritten.NormalizeEndAsWritten | src/list.c:697-707 | head = 1 and tail = size-1 after the loop |
| ListAsWritten.ChainEndAsWritten | src/list.c:438-442 | the free-chain walk of `list_change_capacity` stays inside the arrays |
| ListAsWritten.GrowAsWritten | src/list.c:436-458 | the growing branch as written yields arrays of n entries |
| ListAsWritten.ShrinkAsWritten | src/list.c:424-458 | the shrinking branch as written yields arrays of n entries |
| ListAsWritten.ClearAsWritten | src/list.c:579-593 | `list_clear` as written leaves one slot and keeps the old head, tail and first_free |
| ListAsWritten.SwappedWellFormed | src/list.c:292-309 | the list [10, 20] with 10 in slot 2 and 20 in slot 1 is well formed |
| ListAsWritten.NormalizeBreaksLinks | src/list.c:684-694 | normalizing that list as written gives a record `list_verify` rejects with LIST_BAD_BUSY_FIELDS |
| ListAsWritten.EmptyUnorderedWellFormed | src/list.c:483-516 | an empty list with the free chain 2, 1 is well formed |
| ListAsWritten.NormalizeEmptyKeepsChain | src/list.c:666-670 | normalizing it as written sets the flag but keeps first_free = 2, so no live and free sequences describe the record |
| ListAsWritten.OneAfterEraseWellFormed | src/list.c:483-516 | the list [7] in slot 2 with slot 1 free is well formed |
| ListAsWritten.GrowClobbersElement | src/list.c:444-449 | growing it to four slots as written gives a record `list_verify` rejects with LIST_BAD_BUSY_FIELDS |
| ListAsWritten.OneOrderedWellFormed | src/list.c:697-707 | the normalized list [7] in slot 1 of three slots is well formed |
| ListAsWritten.ShrinkKeepsFirstFree | src/list.c:432-458 | shrinking it to two slots as written gives a record `list_verify` rejects with LIST_BAD_FIRST_FREE_ELEM |
| ListAsWritten.ClearKeepsHead | src/list.c:584-591 | clearing it as written gives a record `list_verify` rejects with LIST_BAD_HEAD_ITERATOR |
| ListAsWritten.SlotThreeReachable | src/list.c:566-567 | a well-formed one-element list may keep its element in slot 3, the iterator value of LIST_BAD_INDEX |
| ListAsWritten.BeforeNormalizeWellFormed | example/example.c:18-45 | the record the example reaches before `list_normalize` when the growth at example.c:28-29 behaves as the corrected growth (the C reads past the old arrays there, see ListAsWritten.GrowAsWritten under Left out), [1, 3, 4] in slots 1, 4 and 3 with slot 6's payload unspecified, is well formed |
| ListAsWritten.RenumberExampleAsWritten | src/list.c:673-695 | on that record the loop as written moves 3 from slot 4 into slot 2 and leaves the elements in slots 1 .. 3 |
| ListAsWritten.NormalizeExampleAsWritten | src/list.c:658-709 | on that record `list_normalize` as written gives the ordered record of [1, 3, 4] with free slots 4 .. 6 |
| ListAsWritten.AfterNormalizeWellFormed | src/list.c:697-707 | that ordered record is well formed and `list_verify` accepts it |
| ListExample.Roomy | src/list.c:147-152 | a list of fewer than ten elements can always take one more when allocation succeeds |
| ListExample.InsertOne | example/example.c:20-21 | inserting 1 after the head of the empty list gives [1] |
| ListExample.InsertTwenty | example/example.c:24-25 | inserting 20 after the head gives [1, 20] |
| ListExample.InsertFour | example/example.c:28-29 | appending 4, which grows the full list, gives [1, 20, 4] |
| ListExample.InsertThree | example/example.c:32-33 | inserting 3 before the tail gives [1, 20, 3, 4] |
| ListExample.InsertFifty | example/example.c:36-37 | appending 50 gives [1, 20, 3, 4, 50] |
| ListExample.EraseFifty | example/example.c:40 | erasing index 4 gives [1, 20, 3, 4] |
| ListExample.EraseTwenty | example/example.c:43-44 | erasing the value 20 gives [1, 3, 4] |
| ListExample.ReadAll | src/list.c:560-576 | reading every index with `list_element_at` and `list_get` yields the contents |
| ListExample.Build | example/example.c:55 | the list created with room for two values holds [1, 20, 3, 4, 50] after the five insertions |
| ListExample.Example | example/example.c:18-50 | the whole sequence, normalization included, leaves [1, 3, 4]; the corrected `Normalize` runs here, and on the record of ListAsWritten.BeforeNormalize the normalize as written also gives [1, 3, 4] in order (ListAsWritten.NormalizeExampleAsWritten) |

## Left out

- `list_destroy`, `list_print`, `list_print_bytes`, `list_dump_func_`, `list_write_dump_to_dot` and `list_perror`: memory release, file output and message text only.
- The `print_elem_func` callback of the record: a foreign function pointer.
- The `assert (list_verify (lst) == LIST_NO_ERR)` entry guards: they become `requires Valid()`; the abort of a debug build is not modelled.
- The dump and message printing `list_verify_func_` does in a debug build before it returns an error.
- `calloc`, `free`, `memcpy` and `memcmp`: Dafny arrays, copies and `==` stand for them. The payload is a generic `T`; `elemSize` is kept only as the number `list_create` and `list_verify` check. Which allocation fails is not modelled: the allocator is one `allocOk` flag per operation.
- DoublyLinkedList.List.Verify: requires every link to name a slot inside the arrays, because the C walks read out of bounds on a record that breaks this. The arrays are never null, so LIST_BAD_MEMORY never arises.
- DoublyLinkedList.List.InsertBefore: requires `it < capacity`, because `list_insert_before` reads `prevs[it]` without a range check.
- DoublyLinkedList.Reallocated: copies only as many entries as both arrays have, whereas `list_change_capacity` copies `new_capacity` entries out of the smaller old arrays when it grows (an out-of-bounds read).
- ListAsWritten.GrowAsWritten: requires a non-empty free chain or a list that is not full. On a full list the C walk starts at slot `size`, one past the old arrays, and reads out of bounds.
- ListAsWritten.ClearAsWritten: models only the path where the allocation succeeds. When it fails, `list_clear` has already set `size = 1` and the flag, leaving a record `list_verify` may reject. The corrected `Clear` leaves the list unchanged instead.
- DoublyLinkedList.List.Normalize: the corrected `list_normalize`: renumbering as below, and an empty list's free chain rebuilt too; as written the C breaks links and skips the empty rebuild (ListAsWritten.NormalizeAsWritten, see Findings).
- ListNormalize.MovedNexts: states the corrected renumbering of `list_normalize` (src/list.c:673-695): the i-th element trades slots with whatever slot i holds and every link to either slot follows it; as written the C leaves stale links (ListAsWritten.NormalizeAsWritten, see Findings).
- ListNormalize.MovedPrevs: states the corrected renumbering of `list_normalize` (src/list.c:673-695): the i-th element trades slots with whatever slot i holds and every link to either slot follows it; as written the C leaves stale links (ListAsWritten.NormalizeAsWritten, see Findings).
- ListNormalize.MovedPlaced: states the corrected renumbering of `list_normalize` (src/list.c:673-695): the i-th element trades slots with whatever slot i holds and every link to either slot follows it; as written the C leaves stale links (ListAsWritten.NormalizeAsWritten, see Findings).
- ListNormalize.MovedFree: states the corrected renumbering of `list_normalize` (src/list.c:673-695): the i-th element trades slots with whatever slot i holds and every link to either slot follows it; as written the C leaves stale links (ListAsWritten.NormalizeAsWritten, see Findings).
- ListNormalize.RelocateKeeps: states the corrected renumbering of `list_normalize` (src/list.c:673-695): the i-th element trades slots with whatever slot i holds and every link to either slot follows it; as written the C leaves stale links (ListAsWritten.NormalizeAsWritten, see Findings).
- DoublyLinkedList.List.MoveIntoPlace: states the corrected renumbering of `list_normalize` (src/list.c:673-695): the i-th element trades slots with whatever slot i holds and every link to either slot follows it; as written the C leaves stale links (ListAsWritten.NormalizeAsWritten, see Findings).
- DoublyLinkedList.List.RelinkNexts: states the corrected renumbering of `list_normalize` (src/list.c:673-695): the i-th element trades slots with whatever slot i holds and every link to either slot follows it; as written the C leaves stale links (ListAsWritten.NormalizeAsWritten, see Findings).
- DoublyLinkedList.List.RelinkPrevs: states the corrected renumbering of `list_normalize` (src/list.c:673-695): the i-th element trades slots with whatever slot i holds and every link to either slot follows it; as written the C leaves stale links (ListAsWritten.NormalizeAsWritten, see Findings).
- DoublyLinkedList.List.RenumberStep: states the corrected renumbering of `list_normalize` (src/list.c:673-695): the i-th element trades slots with whatever slot i holds and every link to either slot follows it; as written the C leaves stale links (ListAsWritten.NormalizeAsWritten, see Findings).
- DoublyLinkedList.List.Renumber: states the corrected renumbering of `list_normalize` (src/list.c:673-695): the i-th element trades slots with whatever slot i holds and every link to either slot follows it; as written the C leaves stale links (ListAsWritten.NormalizeAsWritten, see Findings).
- DoublyLinkedList.List.RelinkInOrder: states the corrected renumbering of `list_normalize` (src/list.c:673-695): the i-th element trades slots with whatever slot i holds and every link to either slot follows it; as written the C leaves stale links (ListAsWritten.NormalizeAsWritten, see Findings).
- DoublyLinkedList.List.Grow: states the corrected growth of `list_change_capacity` (src/list.c:436-449): the free chain's end points at the old capacity and only the new slots are threaded; as written the C uses `size` and rewrites live slots (ListAsWritten.GrowAsWritten, see Findings).
- ListCapacity.GrowLive: states the corrected growth of `list_change_capacity` (src/list.c:436-449): the free chain's end points at the old capacity and only the new slots are threaded; as written the C uses `size` and rewrites live slots (ListAsWritten.GrowAsWritten, see Findings).
- ListCapacity.GrowFree: states the corrected growth of `list_change_capacity` (src/list.c:436-449): the free chain's end points at the old capacity and only the new slots are threaded; as written the C uses `size` and rewrites live slots (ListAsWritten.GrowAsWritten, see Findings).
- ListCapacity.GrowKeepsShape: states the corrected growth of `list_change_capacity` (src/list.c:436-449): the free chain's end points at the old capacity and only the new slots are threaded; as written the C uses `size` and rewrites live slots (ListAsWritten.GrowAsWritten, see Findings).
- ListCapacity.GrowWellFormed: states the corrected growth of `list_change_capacity` (src/list.c:436-449): the free chain's end points at the old capacity and only the new slots are threaded; as written the C uses `size` and rewrites live slots (ListAsWritten.GrowAsWritten, see Findings).
- DoublyLinkedList.List.GrownArrays: states the corrected growth of `list_change_capacity` (src/list.c:436-449): the free chain's end points at the old capacity and only the new slots are threaded; as written the C uses `size` and rewrites live slots (ListAsWritten.GrowAsWritten, see Findings).
- DoublyLinkedList.List.CopiedLinks: states the corrected growth of `list_change_capacity` (src/list.c:436-449): the free chain's end points at the old capacity and only the new slots are threaded; as written the C uses `size` and rewrites live slots (ListAsWritten.GrowAsWritten, see Findings).
- DoublyLinkedList.List.Shrink: states the corrected shrink of `list_change_capacity` (src/list.c:417-458): the last kept free slot closes the chain; as written the C only truncates the arrays (ListAsWritten.ShrinkAsWritten, see Findings).
- ListCapacity.Truncated: states the corrected shrink of `list_change_capacity` (src/list.c:417-458): the last kept free slot closes the chain; as written the C only truncates the arrays (ListAsWritten.ShrinkAsWritten, see Findings).
- ListCapacity.TruncatedOrdered: states the corrected shrink of `list_change_capacity` (src/list.c:417-458): the last kept free slot closes the chain; as written the C only truncates the arrays (ListAsWritten.ShrinkAsWritten, see Findings).
- ListCapacity.ShrinkWellFormed: states the corrected shrink of `list_change_capacity` (src/list.c:417-458): the last kept free slot closes the chain; as written the C only truncates the arrays (ListAsWritten.ShrinkAsWritten, see Findings).
- DoublyLinkedList.List.ShrunkArrays: states the corrected shrink of `list_change_capacity` (src/list.c:417-458): the last kept free slot closes the chain; as written the C only truncates the arrays (ListAsWritten.ShrinkAsWritten, see Findings).
- DoublyLinkedList.List.ChangeCapacity: its growing and shrinking branches are the corrected ones above (DoublyLinkedList.List.Grow, DoublyLinkedList.List.Shrink); the C's own branches are ListAsWritten.GrowAsWritten and ListAsWritten.ShrinkAsWritten.
- DoublyLinkedList.List.Resize: dispatches to the corrected DoublyLinkedList.List.Grow and DoublyLinkedList.List.Shrink, not to the branches of src/list.c:424-461 as written.
- DoublyLinkedList.List.Clear: the corrected `list_clear`: head, tail and first_free are reset and a failed allocation leaves the list unchanged; as written the C keeps the stale fields (ListAsWritten.ClearAsWritten, see Findings).
- DoublyLinkedList.List.Create: `list_create` with a start capacity of 0 gives a record with capacity 1 and `first_free = 1`. This is modelled: the invariant allows that one case, as `list_verify` does. A start capacity of SIZE_MAX is excluded by the precondition and its outcome is not promised: `++start_capacity` (src/list.c:192) wraps to 0, `calloc(0, …)` may return a non-null pointer, and the stores to `nexts[0]` and `prevs[0]` (src/list.c:209-210) then write past zero-length arrays, which has no counterpart in the model.

## Findings

| source | as written | input that shows it | evidently intended | confidence | as-written member | corrected member |
|---|---|---|---|---|---|---|
| src/list.c:684-694 | the predecessor fix-up compares the link with `i`, although it equals `i`; `prevs` of the moved slots are never updated; `tmp_it` can be `i` | create(2), insert_to_tail(20), insert_to_head(10): 10 is in slot 2 and 20 in slot 1; list_normalize leaves `nexts = [1,0,0]`, `prevs = [2,0,1]` | the i-th element trades slots with whatever slot i holds, and every link to either slot follows it | not executed | ListAsWritten.NormalizeAsWritten, ListAsWritten.NormalizeBreaksLinks | DoublyLinkedList.List.Normalize |
| src/list.c:666-670 | an empty list only gets its flag set; the free chain is not rebuilt | create(2), insert two values, erase the one in slot 1, then the one in slot 2: the free chain is 2, 1; list_normalize keeps `first_free = 2` under the flag | the free slots are rethreaded in order from slot 1, as for a non-empty list | not executed | ListAsWritten.NormalizeAsWritten, ListAsWritten.NormalizeEmptyKeepsChain | DoublyLinkedList.List.Normalize |
| src/list.c:438-449 | growth points the free chain's end at `size` and rewrites every slot from `size` on as free | create(2), insert 5 and 7, erase 5: [7] in slot 2, slot 1 free; change_capacity(3) threads slot 2 into the free chain | the free chain's end points at the old capacity and only the new slots are threaded | not executed | ListAsWritten.GrowAsWritten, ListAsWritten.GrowClobbersElement | DoublyLinkedList.List.Grow |
| src/list.c:432-458 | shrinking only truncates, so the free chain may run past the arrays | create(2), insert_to_tail(7), change_capacity(1): `first_free = 2` with capacity 2 | the last kept free slot closes the chain; first_free is 0 when none is left | not executed | ListAsWritten.ShrinkAsWritten, ListAsWritten.ShrinkKeepsFirstFree | DoublyLinkedList.List.Shrink |
| src/list.c:584-591 | `list_clear` never resets `head`, `tail` or `first_free` | create(2), insert_to_tail(7), list_clear: `head = 1` with capacity 1 | head = tail = 0 and first_free as `list_create` sets it | not executed | ListAsWritten.ClearAsWritten, ListAsWritten.ClearKeepsHead | DoublyLinkedList.List.Clear |
| src/list.c:531-538 | `list_erase_by_index` erases whatever `list_element_at` returns, and LIST_BAD_INDEX (3) is a legal slot | create(3), insert 5, 6, 7, erase index 1 then index 0: [7] in slot 3; erase_by_index(1) erases 7 and reports success | an index past the end is refused with LIST_BAD_INDEX and erases nothing | not executed | DoublyLinkedList.List.EraseByIndex, ListAsWritten.SlotThreeReachable | DoublyLinkedList.List.EraseAt |
