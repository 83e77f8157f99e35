/** `ArrayList`: a growable array. Elements live in `buffer[0..size)`; the
    slots after them hold `None` (Java's null). */
module ArrayLists {
  import opened Outcomes
  import opened Lists

  const DEFAULT_CAPACITY: nat := 16

  class ArrayList<T(==)> {
    /** The elements, in list order. */
    ghost var Contents: seq<T>

    var buffer: array<Option<T>>
    var size: nat

    ghost predicate Valid()
      reads this, buffer
    {
      && 0 < buffer.Length
      && size == |Contents| <= buffer.Length
      && (forall i :: 0 <= i < size ==> buffer[i] == Some(Contents[i]))
      && (forall i :: size <= i < buffer.Length ==> buffer[i] == None)
    }

    constructor (capacity: nat)
      requires capacity > 0
      ensures Valid() && fresh(buffer)
      ensures Contents == [] && buffer.Length == capacity
    {
      buffer := new Option<T>[capacity](_ => None);
      size := 0;
      Contents := [];
    }

    constructor Default()
      ensures Valid() && fresh(buffer)
      ensures Contents == [] && buffer.Length == DEFAULT_CAPACITY
    {
      buffer := new Option<T>[DEFAULT_CAPACITY](_ => None);
      size := 0;
      Contents := [];
    }

    /** `reallocate`: the storage is replaced by a copy of twice the length. */
    method Reallocate()
      requires Valid()
      modifies this
      ensures Valid() && fresh(buffer)
      ensures buffer.Length == 2 * old(buffer.Length) && size < buffer.Length
      ensures Contents == old(Contents)
    {
      var a := new Option<T>[2 * buffer.Length](_ => None);
      var i := 0;
      while i < buffer.Length
        modifies a
        invariant 0 <= i <= buffer.Length
        invariant forall k :: 0 <= k < i ==> a[k] == buffer[k]
        invariant forall k :: i <= k < a.Length ==> a[k] == None
      {
        a[i] := buffer[i];
        i := i + 1;
      }
      buffer := a;
    }

    /** `add(obj)`: appends at position `size`, doubling the storage first
        when it is full; always returns true. */
    method Add(obj: T) returns (r: bool)
      requires Valid()
      modifies this, buffer
      ensures Valid() && r
      ensures Contents == old(Contents) + [obj]
      ensures old(size) < old(buffer.Length) ==> buffer == old(buffer)
      ensures old(size) == old(buffer.Length) ==> fresh(buffer) && buffer.Length == 2 * old(buffer.Length)
    {
      if size == buffer.Length {
        Reallocate();
      }
      buffer[size] := Some(obj);
      size := size + 1;
      Contents := Contents + [obj];
      r := true;
    }

    /** `add(index, obj)`: throws unless `0 <= index <= size`; otherwise the
        elements from `index` on move up by one and `obj` takes `index`. */
    method Insert(index: int, obj: T) returns (r: Result<()>)
      requires Valid()
      modifies this, buffer
      ensures Valid()
      ensures r == CheckIndex(index, old(size), true)
      ensures r.Ok? ==> Contents == InsertAt(old(Contents), index, obj)
      ensures r.Err? ==> Contents == old(Contents) && buffer == old(buffer)
      ensures r.Ok? && old(size) < old(buffer.Length) ==> buffer == old(buffer)
      ensures r.Ok? && old(size) == old(buffer.Length) ==> fresh(buffer) && buffer.Length == 2 * old(buffer.Length)
    {
      r := CheckIndex(index, size, true);
      if r.Err? {
        return;
      }
      if size == buffer.Length {
        Reallocate();
      }
      ShiftUp(index);
      buffer[index] := Some(obj);
      forall j | 0 <= j <= size
        ensures buffer[j] == Some(InsertAt(Contents, index, obj)[j])
      {
        InsertAtShifts(Contents, index, obj, j);
      }
      size := size + 1;
      Contents := InsertAt(Contents, index, obj);
    }

    /** The `System.arraycopy` of `add(index, obj)`: the elements from
        `index` on move up by one slot, into the free slot at `size`. */
    method ShiftUp(index: nat)
      requires Valid() && index <= size < buffer.Length
      modifies buffer
      ensures forall j :: 0 <= j < index ==> buffer[j] == Some(Contents[j])
      ensures forall j :: index < j <= size ==> buffer[j] == Some(Contents[j - 1])
      ensures forall j :: size < j < buffer.Length ==> buffer[j] == None
    {
      var k := size;
      while k > index
        invariant index <= k <= size
        invariant forall j :: 0 <= j < k ==> buffer[j] == Some(Contents[j])
        invariant forall j :: k < j <= size ==> buffer[j] == Some(Contents[j - 1])
        invariant forall j :: size < j < buffer.Length ==> buffer[j] == None
      {
        buffer[k] := buffer[k - 1];
        k := k - 1;
      }
    }

    /** `remove(index)`: throws unless `0 <= index < size`; otherwise returns
        the element at `index`, moves the later ones down by one and clears
        the slot that falls free. */
    method Remove(index: int) returns (r: Result<T>)
      requires Valid()
      modifies this, buffer
      ensures Valid() && buffer == old(buffer)
      ensures 0 <= index < old(size) ==> r == Ok(old(Contents)[index]) && Contents == RemoveAt(old(Contents), index)
      ensures !(0 <= index < old(size)) ==> r == Err(IndexOutOfBounds) && Contents == old(Contents)
      ensures r.Ok? ==> buffer[size] == None
    {
      if index < 0 || index >= size {
        return Err(IndexOutOfBounds);
      }
      r := Ok(buffer[index].value);
      var k := index;
      while k < size - 1
        modifies buffer
        invariant index <= k <= size - 1
        invariant forall j :: 0 <= j < index ==> buffer[j] == Some(Contents[j])
        invariant forall j :: index <= j < k ==> buffer[j] == Some(Contents[j + 1])
        invariant forall j :: k < j < buffer.Length ==> buffer[j] == old(buffer[j])
      {
        buffer[k] := buffer[k + 1];
        k := k + 1;
      }
      size := size - 1;
      buffer[size] := None;
      Contents := RemoveAt(Contents, index);
    }

    /** `size()`. */
    method Size() returns (r: nat)
      requires Valid()
      ensures r == |Contents|
    {
      r := size;
    }

    /** `isEmpty()`: whether `size` is zero. */
    method IsEmpty() returns (r: bool)
      requires Valid()
      ensures r <==> Contents == []
    {
      r := size == 0;
    }

    /** `get(index)`: the element at `index`, or IndexOutOfBounds. */
    method Get(index: int) returns (r: Result<T>)
      requires Valid()
      ensures 0 <= index < |Contents| ==> r == Ok(Contents[index])
      ensures !(0 <= index < |Contents|) ==> r == Err(IndexOutOfBounds)
    {
      if index < 0 || index >= size {
        return Err(IndexOutOfBounds);
      }
      r := Ok(buffer[index].value);
    }

    /** `indexOf(pattern)`: a forward scan for the first equal element. */
    method IndexOf(pattern: T) returns (r: int)
      requires Valid()
      ensures IsFirstIndex(Contents, pattern, r)
    {
      var index := 0;
      while index < size && buffer[index] != Some(pattern)
        invariant 0 <= index <= size
        invariant pattern !in Contents[..index]
      {
        index := index + 1;
      }
      assert index == size ==> Contents[..index] == Contents;
      r := if index == size then -1 else index;
    }

    /** `lastIndexOf(pattern)`: a backward scan for the last equal element. */
    method LastIndexOf(pattern: T) returns (r: int)
      requires Valid()
      ensures IsLastIndex(Contents, pattern, r)
    {
      var index := size as int - 1;
      while index >= 0 && buffer[index] != Some(pattern)
        invariant -1 <= index < size
        invariant pattern !in Contents[index + 1..]
      {
        index := index - 1;
      }
      r := index;
    }

    /** The default `contains` of `List`: `indexOf(pattern) >= 0`. */
    method Contains(pattern: T) returns (r: bool)
      requires Valid()
      ensures r <==> pattern in Contents
    {
      var index := IndexOf(pattern);
      r := index >= 0;
    }

    /** The default `remove(pattern)` of `List`: removes the first equal
        element, if any, and reports whether it did. */
    method RemovePattern(pattern: T) returns (r: bool)
      requires Valid()
      modifies this, buffer
      ensures Valid()
      ensures r <==> pattern in old(Contents)
      ensures Contents == RemoveFirst(old(Contents), pattern)
    {
      var index := IndexOf(pattern);
      FirstIndexDetermined(Contents, pattern, index);
      r := index >= 0;
      if r {
        var _ := Remove(index);
      }
    }

    /** `iterator()`: a fresh iterator positioned before the first element. */
    method Iterator() returns (it: ArrayListIterator<T>)
      ensures fresh(it) && it.list == this && it.index == 0
    {
      it := new ArrayListIterator(this);
    }
  }

  /** The anonymous iterator of `ArrayList`: a cursor into `buffer[0..size)`. */
  class ArrayListIterator<T(==)> {
    const list: ArrayList<T>
    var index: nat

    constructor (list: ArrayList<T>)
      ensures this.list == list && index == 0
    {
      this.list := list;
      index := 0;
    }

    method HasNext() returns (r: bool)
      requires list.Valid()
      ensures r <==> index < |list.Contents|
    {
      r := index < list.size;
    }

    /** `next()`: the element at the cursor, which then advances; at the end,
        NoSuchElement. */
    method Next() returns (r: Result<T>)
      requires list.Valid()
      modifies this
      ensures old(index) < |list.Contents| ==> r == Ok(list.Contents[old(index)]) && index == old(index) + 1
      ensures old(index) >= |list.Contents| ==> r == Err(NoSuchElement) && index == old(index)
    {
      if index >= list.size {
        return Err(NoSuchElement);
      }
      r := Ok(list.buffer[index].value);
      index := index + 1;
    }
  }
}
