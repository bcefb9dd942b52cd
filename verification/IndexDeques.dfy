/** A first-in-first-out queue whose elements keep their enqueue index when earlier ones leave. */
module IndexDeques {
  import opened Basics

  datatype IndexDeque<+T> = IndexDeque(offset: nat, items: seq<T>) {

    function Largest(): nat { offset + |items| }

    predicate Contains(idx: nat) { offset <= idx < Largest() }

    function Get(idx: nat): Option<T> {
      if Contains(idx) then Some(items[idx - offset]) else None
    }

    /** Callers of `push_back` all unwrap, so exceeding the index limit is a panic. */
    function PushBack(value: T): IndexDeque<T>
      requires Largest() <= VARINT_MAX
    {
      IndexDeque(offset, items + [value])
    }

    function Replace(idx: nat, value: T): IndexDeque<T>
      requires Contains(idx)
    {
      IndexDeque(offset, items[idx - offset := value])
    }

    /** Insert at `idx`, filling a gap behind the current end with `pad`. */
    function Insert(idx: nat, value: T, pad: T): IndexDeque<T>
      requires offset <= idx <= VARINT_MAX
    {
      if Contains(idx) then
        Replace(idx, value)
      else
        IndexDeque(offset, items + seq(idx - Largest(), _ => pad) + [value])
    }

    function Advance(n: nat): IndexDeque<T>
      requires n <= |items|
    {
      IndexDeque(offset + n, items[n..])
    }

    /** The range is the queue's own debug assertion. */
    function DrainTo(end: nat): IndexDeque<T>
      requires offset <= end <= Largest()
    {
      Advance(end - offset)
    }

    function ResetOffset(newOffset: nat): IndexDeque<T> {
      IndexDeque(newOffset, items)
    }
  }

  function Empty<T>(): IndexDeque<T> { IndexDeque(0, []) }
}
