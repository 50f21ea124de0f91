/** The record-level vocabulary of the list library: error codes, the growth
    coefficient, the width of `size_t` and an optional value for `list_get`. */
module ListTypes {

  /** The error codes of the library, in the order they are numbered. */
  datatype ListError =
    | NoErr
    | AllocErr
    | BadIterator
    | BadIndex
    | Empty
    | BadCapacity
    | BadElemSize
    | BadMemory
    | BadFirstFreeElem
    | BadHeadIterator
    | BadTailIterator
    | BadFreeFields
    | BadBusyFields
  {
    /** The numeric value the library gives each code. */
    function Code(): (c: nat)
      ensures c <= 12
      ensures this == NoErr <==> c == 0
    {
      match this
      case NoErr => 0
      case AllocErr => 1
      case BadIterator => 2
      case BadIndex => 3
      case Empty => 4
      case BadCapacity => 5
      case BadElemSize => 6
      case BadMemory => 7
      case BadFirstFreeElem => 8
      case BadHeadIterator => 9
      case BadTailIterator => 10
      case BadFreeFields => 11
      case BadBusyFields => 12
    }
  }

  /** How many times the capacity is multiplied when the free slots run out. */
  const CapacityCoeff: nat := 2

  /** One more than the largest `size_t` value (a 64-bit `size_t`). */
  const SizeLimit: nat := 0x1_0000_0000_0000_0000

  /** An iterator: the number of a slot, 0 being the sentinel. */
  type Iterator = nat

  /** `list_iterator_on_element`: only the sentinel points at no element. */
  function OnElement(it: Iterator): bool
  {
    it != 0
  }

  /** A pointer that may be NULL. */
  datatype Option<T> = None | Some(value: T)
}
