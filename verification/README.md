# telran.util containers in Dafny

This project models the `telran.util` container library (a small Java
collections framework) and proves what its operations do. It covers:

- `ArrayList`: a growable array. `buffer` is a Dafny `array`, and a ghost
  `Contents` sequence holds the list.
- `LinkedList`: a doubly linked list. The nodes are cells of an arena
  (`map<nat, Cell>`) with `next`/`prev` links. A ghost `Order` of node ids and
  ghost `Contents` describe the list.
- `List`: the interface's default methods `remove(pattern)`, `contains` and
  `checkIndex`. They are specified once in module `Lists` as functions on
  sequences (`CheckIndex`, `InsertAt`, `RemoveAt`, `FirstIndexOf`,
  `RemoveFirst`), and each list class implements them.
- `HashSet`: separate chaining over an `array<seq<T>>` of buckets. A ghost
  `Elems` map, from key to stored element, is the set.
  - Java's `equals` is a key projection `key: T -> K`, so two elements are
    equal when their keys are equal.
  - Java's `hashCode` is a function `hash: K -> int` of the key.
  - The iterator walks the buckets in index order; its ghost `Position` is its
    place in the flattened table.
- `LinkedHashSet`: its intended behaviour as an insertion-ordered `list` of
  elements plus an `index` map from key to element, kept in step.
- `AbstractMap`: a map over a `HashSet` of `Entry` objects keyed by their key.
  `Entry` is a class whose `value` field `put` overwrites in place. Java's
  null value is `None`.
- `TreeSet`: an unbalanced binary search tree under a comparator, with parent
  links.
  - The nodes are cells of an arena: `Cell(obj, parent, left, right)` keyed by
    id (module `TreeLayouts`).
  - The ghost `Layout` tree is tied to the links by `Linked`. Its in-order
    `Values` are the contents, and `Valid` keeps them strictly ascending under
    the comparator.
  - `add`, `remove` and the iterator walk, relink and copy the cells as the
    source does. Each is proved against functions on `Layout`: `Search`,
    `Descend`, `Ins`, `Splice`, `SetObj`.

Exceptions are values of `Outcomes.Error` (`IndexOutOfBounds`,
`NoSuchElement`, `IllegalState`, `UnsupportedOperation`, `NullPointer`).
Operations that can throw return `Result`, and a null result is `Option.None`.
The comparator is a function `cmp: (T, T) -> int` obeying the laws of Java's
`Comparator` (`IsComparator`).

## Model

| member | source | states |
|---|---|---|
| Lists.CheckIndex | src/main/java/telran/util/List.java:29-35 | fails with IndexOutOfBounds exactly when `index < 0` or `index` exceeds the limit, which is `size` when size-inclusive and `size - 1` otherwise |
| Lists.FirstIndexOf | src/main/java/telran/util/List.java:14-22 | the result is -1 when the pattern is absent, else the first position holding it |
| Lists.FirstIndexDetermined | src/main/java/telran/util/List.java:14-22 | any index meeting the first-index property is the one `FirstIndexOf` returns, so every `indexOf` implementation agrees with it |
| Lists.RemoveFirstCount | src/main/java/telran/util/List.java:14-27 | the pattern is present iff its first index is >= 0 (`contains`); `remove(pattern)` then drops exactly one copy, else the list is unchanged |
| Lists.InsertRemoveRoundTrip | src/main/java/telran/util/ArrayList.java:91-103 | inserting at `index` puts `x` there and grows the list by one, and removing at `index` afterwards gives the original list back |
| Lists.InsertAtElements | src/main/java/telran/util/ArrayList.java:91-103 | a positional insert adds exactly one copy of the element |
| Lists.RemoveAtElements | src/main/java/telran/util/ArrayList.java:25-35 | a positional remove drops exactly one copy of the element that was at `index` |
| Lists.InsertAtShifts | src/main/java/telran/util/ArrayList.java:100-101 | after an insert, positions before `index` are unchanged, `index` holds `x`, and later positions hold their predecessor's old element |
| Lists.RemoveAtShifts | src/main/java/telran/util/ArrayList.java:32 | after a remove, positions before `index` are unchanged and later positions hold their successor's old element |
| ArrayLists.ArrayList.constructor | src/main/java/telran/util/ArrayList.java:13-15 | an empty list whose storage has the given capacity |
| ArrayLists.ArrayList.Default | src/main/java/telran/util/ArrayList.java:17-19 | an empty list with capacity `DEFAULT_CAPACITY` = 16 |
| ArrayLists.ArrayList.Reallocate | src/main/java/telran/util/ArrayList.java:21-23 | the storage doubles in length, and the elements and their positions are kept |
| ArrayLists.ArrayList.Add | src/main/java/telran/util/ArrayList.java:82-89 | appends `obj` and returns true; the storage doubles first exactly when it was full |
| ArrayLists.ArrayList.Insert | src/main/java/telran/util/ArrayList.java:91-103 | IndexOutOfBounds with nothing changed unless `0 <= index <= size`; otherwise the list becomes `InsertAt(old, index, obj)`, and the storage doubles first exactly when it was full |
| ArrayLists.ArrayList.ShiftUp | src/main/java/telran/util/ArrayList.java:100 | the `arraycopy` step: slots before `index` keep their elements, slots `index+1 .. size` hold the elements from `index` on, and the slots after them stay null |
| ArrayLists.ArrayList.Remove | src/main/java/telran/util/ArrayList.java:25-35 | IndexOutOfBounds unless `0 <= index < size`; otherwise returns the element at `index`, the list becomes `RemoveAt(old, index)` and the freed slot is null |
| ArrayLists.ArrayList.Size | src/main/java/telran/util/ArrayList.java:48-51 | the number of elements |
| ArrayLists.ArrayList.IsEmpty | src/main/java/telran/util/ArrayList.java:53-56 | true iff the list is empty |
| ArrayLists.ArrayList.Get | src/main/java/telran/util/ArrayList.java:105-112 | the element at `index`, or IndexOutOfBounds outside `[0, size)` |
| ArrayLists.ArrayList.IndexOf | src/main/java/telran/util/ArrayList.java:39-46 | the first position equal to the pattern, else -1 |
| ArrayLists.ArrayList.LastIndexOf | src/main/java/telran/util/ArrayList.java:114-121 | the last position equal to the pattern, else -1 |
| ArrayLists.ArrayList.Contains | src/main/java/telran/util/List.java:24-27 | true iff the pattern occurs in the list |
| ArrayLists.ArrayList.RemovePattern | src/main/java/telran/util/List.java:14-22 | true iff the pattern was present; the list becomes the old list without its first occurrence |
| ArrayLists.ArrayList.Iterator | src/main/java/telran/util/ArrayList.java:60-63 | a fresh iterator at position 0 of this list |
| ArrayLists.ArrayListIterator.constructor | src/main/java/telran/util/ArrayList.java:62-63 | starts at index 0 |
| ArrayLists.ArrayListIterator.HasNext | src/main/java/telran/util/ArrayList.java:65-68 | true iff elements remain |
| ArrayLists.ArrayListIterator.Next | src/main/java/telran/util/ArrayList.java:70-77 | returns the element at the cursor and advances; at the end, NoSuchElement and the cursor stays |
| LinkedLists.ChainPushFront | src/main/java/telran/util/LinkedList.java:90-98 | linking a new node before the head gives a well-linked list with the element in front |
| LinkedLists.ChainPushBack | src/main/java/telran/util/LinkedList.java:84-88 | linking a new node after the tail gives a well-linked list with the element at the end |
| LinkedLists.ChainInsert | src/main/java/telran/util/LinkedList.java:75-82 | linking a new node between positions `index-1` and `index` gives a well-linked list with the element inserted at `index` |
| LinkedLists.ChainPopFront | src/main/java/telran/util/LinkedList.java:162-172 | unlinking the head of a list of two or more leaves a well-linked rest |
| LinkedLists.ChainPopBack | src/main/java/telran/util/LinkedList.java:156-160 | unlinking the tail and clearing the new tail's `next` leaves a well-linked front part |
| LinkedLists.ChainUnlink | src/main/java/telran/util/LinkedList.java:145-154 | relinking an inner node's neighbours to each other leaves a well-linked list without it |
| LinkedLists.LinkedList.constructor | src/main/java/telran/util/LinkedList.java:40-42 | an empty list |
| LinkedLists.LinkedList.GetNodeFromHead | src/main/java/telran/util/LinkedList.java:56-62 | walking `index` steps from the head reaches the node at position `index` |
| LinkedLists.LinkedList.GetNodeFromTail | src/main/java/telran/util/LinkedList.java:48-54 | walking back from the tail reaches the same node at position `index` |
| LinkedLists.LinkedList.GetNode | src/main/java/telran/util/LinkedList.java:44-46 | the node at position `index`, from whichever end the walk starts |
| LinkedLists.LinkedList.AddHead | src/main/java/telran/util/LinkedList.java:90-98 | the new node becomes the first, and the list is the element followed by the old list |
| LinkedLists.LinkedList.AddTail | src/main/java/telran/util/LinkedList.java:84-88 | the new node becomes the last, and the list is the old list followed by the element |
| LinkedLists.LinkedList.AddMiddle | src/main/java/telran/util/LinkedList.java:75-82 | the new node goes in at `index`, and the contents become `InsertAt(old, index, obj)` |
| LinkedLists.LinkedList.AddNode | src/main/java/telran/util/LinkedList.java:64-73 | whichever of head, tail or middle applies, the contents become `InsertAt(old, index, obj)` |
| LinkedLists.LinkedList.Add | src/main/java/telran/util/LinkedList.java:100-105 | appends `obj` and returns true |
| LinkedLists.LinkedList.Insert | src/main/java/telran/util/LinkedList.java:122-127 | IndexOutOfBounds with nothing changed unless `0 <= index <= size`; otherwise the contents become `InsertAt(old, index, obj)` |
| LinkedLists.LinkedList.RemoveHead | src/main/java/telran/util/LinkedList.java:162-172 | returns the first element and drops it; on a list of one, head and tail both become null |
| LinkedLists.LinkedList.RemoveTail | src/main/java/telran/util/LinkedList.java:156-160 | returns the last element and drops it, clearing the new tail's `next` |
| LinkedLists.LinkedList.RemoveMiddle | src/main/java/telran/util/LinkedList.java:145-154 | for `0 < index < size-1`, returns the element at `index` and the contents become `RemoveAt(old, index)` |
| LinkedLists.LinkedList.Remove | src/main/java/telran/util/LinkedList.java:129-143 | corrected `remove(index)`: IndexOutOfBounds unless `0 <= index < size`; otherwise returns the element at `index` and removes it, and an emptied list has null head and tail |
| LinkedLists.LinkedList.Size | src/main/java/telran/util/LinkedList.java:107-110 | the number of elements |
| LinkedLists.LinkedList.IsEmpty | src/main/java/telran/util/LinkedList.java:112-115 | true iff the list is empty |
| LinkedLists.LinkedList.Get | src/main/java/telran/util/LinkedList.java:174-178 | the element at `index`, or IndexOutOfBounds outside `[0, size)` |
| LinkedLists.LinkedList.IndexOf | src/main/java/telran/util/LinkedList.java:180-189 | the first position equal to the pattern, else -1 |
| LinkedLists.LinkedList.LastIndexOf | src/main/java/telran/util/LinkedList.java:191-200 | the last position equal to the pattern, else -1 |
| LinkedLists.LinkedList.Contains | src/main/java/telran/util/List.java:24-27 | true iff the pattern occurs in the list |
| LinkedLists.LinkedList.RemovePattern | src/main/java/telran/util/List.java:14-22 | true iff the pattern was present; the contents become the old list without its first occurrence |
| LinkedLists.LinkedList.Iterator | src/main/java/telran/util/LinkedList.java:117-120 | a fresh iterator at the head |
| LinkedLists.LinkedListIterator.constructor | src/main/java/telran/util/LinkedList.java:19-20 | starts at position 0, the head |
| LinkedLists.LinkedListIterator.HasNext | src/main/java/telran/util/LinkedList.java:22-25 | true iff elements remain |
| LinkedLists.LinkedListIterator.Next | src/main/java/telran/util/LinkedList.java:27-37 | returns the element at the cursor and moves to the next node; at the end, NoSuchElement |
| LinkedLists.Deref | src/main/java/telran/util/LinkedList.java:148-151 | reading a field through a pointer succeeds exactly on a live node and is NullPointer on null |
| LinkedLists.RemoveAsWritten | src/main/java/telran/util/LinkedList.java:129-160 | `remove(index)` as written, returning the outcome together with the fields as they stand when it returns or throws: an index outside `[0, size]` is IndexOutOfBounds with nothing changed, `size` drops by one on success and is kept when an exception is thrown |
| LinkedLists.TwoNodes | src/main/java/telran/util/LinkedList.java:40-42 | a well-linked two-element list, the input of the counterexample |
| LinkedLists.RemoveAsWrittenCounterexample | src/main/java/telran/util/LinkedList.java:133-151 | on `[a, b]`, `remove(1)` as written, and `remove(b)` by pattern, throw NullPointer after cutting `a.next`: size stays 2, a walk from the head ends after `a`, yet `get(1)` still finds `b`; `remove(2)` is accepted, returns `b` and leaves a list whose tail still links forward to the dropped node |
| LinkedLists.RemoveAsWrittenEmpty | src/main/java/telran/util/LinkedList.java:133-137 | on an empty list, `remove(0)` as written passes the index check and throws NullPointer, with the fields unchanged |
| HashSets.GetIndex | src/main/java/telran/util/HashSet.java:98-101 | `Math.abs(hash % length)` with Java's truncating `%` lies in `[0, length)` and equals `abs(hash)` modulo `length` |
| HashSets.HashedEmpty | src/main/java/telran/util/HashSet.java:65-68 | a table of empty buckets stores the empty set |
| HashSets.HashedAdd | src/main/java/telran/util/HashSet.java:88-96 | appending an absent element to bucket `getIndex` of its hash keeps every element in its own bucket, and the set gains it |
| HashSets.HashedRemove | src/main/java/telran/util/HashSet.java:114-126 | dropping the element with key `k` from its bucket keeps the placement invariant, and the set loses `k` |
| HashSets.TableAdd | src/main/java/telran/util/HashSet.java:82-83 | adding to the bucket and incrementing `size` keeps `size` equal to the number of elements |
| HashSets.TableRemove | src/main/java/telran/util/HashSet.java:120-122 | removing from the bucket and decrementing `size` keeps `size` equal to the number of elements |
| HashSets.FlattenEnumerates | src/main/java/telran/util/HashSet.java:24-38 | the buckets read in index order hold each element of the set exactly once |
| HashSets.RehashStep | src/main/java/telran/util/HashSet.java:105-107 | re-adding one element of an old bucket to the new table keeps the rehash in progress consistent |
| HashSets.RehashDone | src/main/java/telran/util/HashSet.java:103-112 | once every old bucket has been re-added, the new table stores exactly the old set with the same size |
| HashSets.CursorSkip | src/main/java/telran/util/HashSet.java:51-62 | skipping empty buckets leaves the cursor where the flattened table resumes; a bucket is found iff elements remain |
| HashSets.HashSet.ElementsEnumerate | src/main/java/telran/util/HashSet.java:128-131 | the flattened table holds the set's elements, each once, so `size` is the number of elements |
| HashSets.HashSet.StoredUnderKey | src/main/java/telran/util/HashSet.java:88-96 | every stored element is recorded under its own key |
| HashSets.HashSet.constructor | src/main/java/telran/util/HashSet.java:65-68 | an empty set with the given table length and load factor |
| HashSets.HashSet.Default | src/main/java/telran/util/HashSet.java:70-72 | an empty set with table length 16 and load factor 3/4 |
| HashSets.HashSet.AddObjInHashTable | src/main/java/telran/util/HashSet.java:88-96 | the element is appended to bucket `getIndex(hash, length)`, and no other bucket changes |
| HashSets.HashSet.BucketIndexOf | src/main/java/telran/util/HashSet.java:142 | the first position of a bucket equal to the pattern, else -1 |
| HashSets.HashSet.Contains | src/main/java/telran/util/HashSet.java:138-143 | true iff an element equal to the pattern is stored |
| HashSets.HashSet.GetWithIterator | src/main/java/telran/util/HashSet.java:163-172 | returns an element of the bucket equal to the pattern, or null when none is |
| HashSets.HashSet.Get | src/main/java/telran/util/HashSet.java:150-161 | the stored element equal to the pattern, or null |
| HashSets.HashSet.AddAllInHashTable | src/main/java/telran/util/HashSet.java:107 | re-adding all of one old bucket advances the rehash by one bucket |
| HashSets.HashSet.RehashAll | src/main/java/telran/util/HashSet.java:105-110 | after the loop over all old buckets, every element has been re-added to the new table |
| HashSets.HashSet.HashTableReallocation | src/main/java/telran/util/HashSet.java:103-112 | the table doubles in length, and the set and its size are unchanged, with every element re-indexed |
| HashSets.HashSet.Add | src/main/java/telran/util/HashSet.java:74-86 | true iff no equal element was stored, and then the set gains `obj`; the table doubles exactly when the size before the insertion is at least `length * factor`; a rejected add changes nothing |
| HashSets.HashSet.Remove | src/main/java/telran/util/HashSet.java:114-126 | true iff an equal element was stored; afterwards none is, and the other elements stay |
| HashSets.HashSet.StoreBucket | src/main/java/telran/util/HashSet.java:120-121 | writes one bucket and the new size; the invariant holds for the resulting set |
| HashSets.HashSet.Size | src/main/java/telran/util/HashSet.java:128-131 | the number of elements |
| HashSets.HashSet.IsEmpty | src/main/java/telran/util/HashSet.java:133-136 | true iff the set is empty |
| HashSets.HashSet.Iterator | src/main/java/telran/util/HashSet.java:145-148 | a fresh iterator before the first element |
| HashSets.HashSetIterator.Position | src/main/java/telran/util/HashSet.java:14-17 | the cursor's place in the flattened table never passes its end |
| HashSets.HashSetIterator.constructor | src/main/java/telran/util/HashSet.java:19-22 | starts at position 0 with no previous bucket iterator |
| HashSets.HashSetIterator.GetCurrentIterator | src/main/java/telran/util/HashSet.java:51-62 | returns the first non-empty bucket at or after `indexIterator`, or -1 when none is left, with all buckets skipped on the way empty |
| HashSets.HashSetIterator.HasNext | src/main/java/telran/util/HashSet.java:24-28 | true iff elements remain; the position is unchanged |
| HashSets.HashSetIterator.Next | src/main/java/telran/util/HashSet.java:30-38 | returns the element at the position in bucket order and advances by one; at the end, NoSuchElement |
| HashSets.HashSetIterator.Remove | src/main/java/telran/util/HashSet.java:40-49 | IllegalState before any `next`; otherwise the bucket list's iterator refuses removal with UnsupportedOperation |
| LinkedHashSets.KeyIndexAppend | src/main/java/telran/util/LinkedHashSet.java:15-17 | appending an element with a new key keeps keys distinct, and the index gains exactly that key |
| LinkedHashSets.KeyIndexRemove | src/main/java/telran/util/LinkedHashSet.java:33-36 | unlinking the element at `i` is `RemoveAt` on the list, and the index loses exactly its key |
| LinkedHashSets.KeyIndexSize | src/main/java/telran/util/LinkedHashSet.java:42-45 | with distinct keys, the index has one entry per listed element |
| LinkedHashSets.KeyIndexHas | src/main/java/telran/util/LinkedHashSet.java:52-55 | a key is indexed iff some listed element has it |
| LinkedHashSets.WithoutAbsent | src/main/java/telran/util/LinkedHashSet.java:29-40 | removing an absent key leaves the list unchanged |
| LinkedHashSets.LinkedHashSet.constructor | src/main/java/telran/util/LinkedHashSet.java:8-9 | an empty list and an empty index |
| LinkedHashSets.LinkedHashSet.Contains | src/main/java/telran/util/LinkedHashSet.java:52-55 | true iff a listed element equals the pattern |
| LinkedHashSets.LinkedHashSet.Add | src/main/java/telran/util/LinkedHashSet.java:11-21 | true iff no equal element was present; it is then appended to the list and registered in the index, and otherwise nothing changes |
| LinkedHashSets.LinkedHashSet.Get | src/main/java/telran/util/LinkedHashSet.java:23-27 | the listed element equal to the pattern, or null when there is none |
| LinkedHashSets.LinkedHashSet.Remove | src/main/java/telran/util/LinkedHashSet.java:29-40 | true iff present; that element leaves the list at its position and its key leaves the index |
| LinkedHashSets.LinkedHashSet.Size | src/main/java/telran/util/LinkedHashSet.java:42-45 | the list length, which equals the number of indexed keys |
| LinkedHashSets.LinkedHashSet.IsEmpty | src/main/java/telran/util/LinkedHashSet.java:47-50 | true iff both list and index are empty |
| LinkedHashSets.LinkedHashSet.Iterator | src/main/java/telran/util/LinkedHashSet.java:57-60 | a fresh iterator at the front of the list |
| LinkedHashSets.LinkedHashSetIterator.constructor | src/main/java/telran/util/LinkedHashSet.java:62-64 | starts at the front with no current element |
| LinkedHashSets.LinkedHashSetIterator.HasNext | src/main/java/telran/util/LinkedHashSet.java:66-69 | true iff elements remain |
| LinkedHashSets.LinkedHashSetIterator.Next | src/main/java/telran/util/LinkedHashSet.java:71-75 | returns the next element in insertion order and remembers it; at the end, NoSuchElement |
| LinkedHashSets.LinkedHashSetIterator.Remove | src/main/java/telran/util/LinkedHashSet.java:77-81 | IllegalState without a current element; otherwise it leaves the list and the index, and the cursor stays before the element that followed |
| AbstractMaps.Entry.constructor | src/main/java/telran/util/AbstractMap.java:24 | an entry holding the given key and value, as `put` builds it here and `get` and `containsKey` build their patterns with a null value at lines 13 and 39 |
| AbstractMaps.AbstractMap.constructor | src/main/java/telran/util/AbstractMap.java:7 | an empty map over a fresh, empty entry set |
| AbstractMaps.AbstractMap.EntriesEnumerate | src/main/java/telran/util/AbstractMap.java:83-86 | each entry is stored under its own key, and the entries' keys are the map's keys, one entry per key |
| AbstractMaps.AbstractMap.Get | src/main/java/telran/util/AbstractMap.java:11-20 | the value of the entry with this key, or null |
| AbstractMaps.AbstractMap.Put | src/main/java/telran/util/AbstractMap.java:22-35 | returns the old value or null; the map becomes the old map with `key` set to `value`; an existing entry is updated in place with the entry set unchanged, and a new key adds one entry; the entry table is the old one or a fresh one, and every entry is an old one or the fresh one just added, so further calls on the map stay possible |
| AbstractMaps.AbstractMap.SetValue | src/main/java/telran/util/AbstractMap.java:27-29 | overwriting the found entry's value changes the mapping of that key only |
| AbstractMaps.AbstractMap.AddEntry | src/main/java/telran/util/AbstractMap.java:31-33 | adding a new entry files it under its key, maps that key to its value and grows the entry set by one; the entry table is the old one or a fresh one |
| AbstractMaps.AbstractMap.ContainsKey | src/main/java/telran/util/AbstractMap.java:37-41 | true iff the key is mapped |
| AbstractMaps.AbstractMap.ContainsValue | src/main/java/telran/util/AbstractMap.java:43-58 | true iff some key maps to the value, null matching only null |
| AbstractMaps.ScanValues | src/main/java/telran/util/AbstractMap.java:45-56 | the scan finds the value iff it occurs among the iterated entries' values |
| AbstractMaps.AbstractMap.ValueListed | src/main/java/telran/util/AbstractMap.java:43-58 | a value occurs among the entries' values iff some key maps to it |
| AbstractMaps.AbstractMap.KeySet | src/main/java/telran/util/AbstractMap.java:60-67 | a fresh set, with a fresh table the caller may change, whose elements are exactly the map's keys |
| AbstractMaps.CollectKeys | src/main/java/telran/util/AbstractMap.java:62-65 | the loop adds the key of every iterated entry, and the key set ends up with exactly those keys |
| AbstractMaps.AbstractMap.EntrySet | src/main/java/telran/util/AbstractMap.java:69-72 | the backing entry set itself, not a copy |
| AbstractMaps.AbstractMap.Values | src/main/java/telran/util/AbstractMap.java:74-81 | a fresh list with one value per entry in entry-set iteration order; every mapped value occurs, duplicates kept |
| AbstractMaps.CollectValues | src/main/java/telran/util/AbstractMap.java:76-79 | the loop appends the value of every iterated entry in order |
| AbstractMaps.AbstractMap.ValuesCover | src/main/java/telran/util/AbstractMap.java:74-81 | the values list has one element per key and holds every mapped value |
| AbstractMaps.AbstractMap.Size | src/main/java/telran/util/AbstractMap.java:83-86 | the number of keys |
| AbstractMaps.AbstractMap.IsEmpty | src/main/java/telran/util/AbstractMap.java:88-91 | true iff no key is mapped |
| TreeLayouts.LinkedFind | src/main/java/telran/util/TreeSet.java:10-19 | every node of the tree is a cell whose element and child links are those of its subtree |
| TreeLayouts.ParentLink | src/main/java/telran/util/TreeSet.java:10-19 | the root's parent link is null, and every other node's parent has it as its left or right child |
| TreeLayouts.IndexOfOrder | src/main/java/telran/util/TreeSet.java:36-43 | a node sits at its in-order position, with its element at the same place among the values |
| TreeLayouts.FindLeft | src/main/java/telran/util/TreeSet.java:54-59 | a node's left subtree spans from where its subtree starts up to the node itself |
| TreeLayouts.FindRight | src/main/java/telran/util/TreeSet.java:61-63 | a node's right subtree spans from just after the node up to where its subtree ends |
| TreeLayouts.SearchMatches | src/main/java/telran/util/TreeSet.java:183-196 | on an ascending tree, the comparator-guided walk finds `x` iff some element compares 0 with `x` |
| TreeLayouts.DescendEnds | src/main/java/telran/util/TreeSet.java:210-219 | the walk on a non-empty tree ends at a node; that node compares 0 iff `x` is found, and otherwise it has no child on `x`'s side |
| TreeLayouts.StepDown | src/main/java/telran/util/TreeSet.java:192 | the link a walk step takes leads to the subtree on `x`'s side of the node |
| TreeLayouts.InsSearchTree | src/main/java/telran/util/TreeSet.java:87-111 | inserting an absent `x` as a leaf keeps ids distinct and the values ascending, adds exactly `x` to them, and grows the order by one |
| TreeLayouts.InsAscending | src/main/java/telran/util/TreeSet.java:105-109 | hanging `x` right of a smaller and left of a greater parent keeps the values strictly ascending |
| TreeLayouts.InsLinked | src/main/java/telran/util/TreeSet.java:103-111 | setting the parent's child link and the new node's parent link ties the arena to the tree with the new leaf |
| TreeLayouts.SpliceOrder | src/main/java/telran/util/TreeSet.java:143-159 | splicing out a node with at most one child removes exactly its place from the in-order ids |
| TreeLayouts.SpliceValues | src/main/java/telran/util/TreeSet.java:143-159 | it also removes exactly that node's element from the values |
| TreeLayouts.SpliceLinked | src/main/java/telran/util/TreeSet.java:143-159 | relinking the child to the node's parent, or making it the root, ties the arena to the spliced tree, with `child.parent` set |
| TreeLayouts.NonJunctionRemoval | src/main/java/telran/util/TreeSet.java:143-164 | `removeNonJunction` on the whole tree: the cells left match the spliced tree, the root changes only when the node had no parent, and order and values lose the node's place |
| TreeLayouts.SetObjValues | src/main/java/telran/util/TreeSet.java:139 | overwriting a node's element changes the values at that node's place only |
| TreeLayouts.JunctionValues | src/main/java/telran/util/TreeSet.java:137-141 | copying the predecessor's element into place `k` and then dropping the predecessor at `k-1` drops exactly the old element at `k` |
| TreeLayouts.JunctionRemoval | src/main/java/telran/util/TreeSet.java:137-141 | `removeJunction`: after the node takes its predecessor's element, splicing the predecessor out removes the node's old element from the values |
| TreeLayouts.AscendingRemoveAt | src/main/java/telran/util/TreeSet.java:117-135 | removing any element keeps the values ascending |
| TreeLayouts.AscendingUnique | src/main/java/telran/util/TreeSet.java:117-126 | once the element comparing 0 with `x` is removed, none does |
| TreeLayouts.MatchesItself | src/main/java/telran/util/TreeSet.java:87-101 | an element of the set compares 0 with some element, itself |
| TreeSets.TreeSet.constructor | src/main/java/telran/util/TreeSet.java:79-81 | an empty set with the given comparator |
| TreeSets.TreeSet.Contains | src/main/java/telran/util/TreeSet.java:183-196 | true iff some element compares 0 with the pattern |
| TreeSets.TreeSet.GetParentOrNode | src/main/java/telran/util/TreeSet.java:210-219 | the end of the walk: null only on an empty tree, else a node of the tree |
| TreeSets.TreeSet.GetNode | src/main/java/telran/util/TreeSet.java:221-228 | a node whose element compares 0 with the pattern iff some element does, else null |
| TreeSets.TreeSet.GetParent | src/main/java/telran/util/TreeSet.java:230-234 | null iff the walk finds the pattern, else the last node of the walk |
| TreeSets.TreeSet.Get | src/main/java/telran/util/TreeSet.java:203-208 | null iff no element compares 0 with the pattern, else the stored element that does |
| TreeSets.TreeSet.AddAfterParent | src/main/java/telran/util/TreeSet.java:103-111 | the new node hangs right of the walk's last node when it compares greater, left otherwise, with its parent link set |
| TreeSets.TreeSet.AddRoot | src/main/java/telran/util/TreeSet.java:113-115 | on an empty tree, the new node becomes the root |
| TreeSets.TreeSet.Add | src/main/java/telran/util/TreeSet.java:87-101 | true iff no element compared 0 with `obj`, and then the contents gain `obj`; otherwise nothing changes; either way `obj` is then matched |
| TreeSets.TreeSet.AddNode | src/main/java/telran/util/TreeSet.java:91-98 | the inserting branch: a new node joins, the contents gain `obj`, and the search-tree invariant holds |
| TreeSets.TreeSet.LinkNode | src/main/java/telran/util/TreeSet.java:93-97 | `addRoot` or `addAfterParent` adds exactly one id and `obj`, and the values stay ascending |
| TreeSets.TreeSet.RemoveNonJunction | src/main/java/telran/util/TreeSet.java:143-164 | the node's child takes its place under its parent or as root, and the node's place leaves the order and values |
| TreeSets.TreeSet.GetGreatestFrom | src/main/java/telran/util/TreeSet.java:166-171 | the returned node has no right child and is the last node of the subtree in order |
| TreeSets.TreeSet.TakeElement | src/main/java/telran/util/TreeSet.java:139 | the node takes its predecessor's element; splicing the predecessor out then drops the node's old element |
| TreeSets.TreeSet.RemoveJunction | src/main/java/telran/util/TreeSet.java:137-141 | a two-child node's element leaves the values, the predecessor's place leaves the order, and links are kept |
| TreeSets.TreeSet.RemoveNode | src/main/java/telran/util/TreeSet.java:128-135 | the node's element leaves the contents; the search-tree invariant and `size` stay in step, and nodes after it move one place forward |
| TreeSets.TreeSet.Remove | src/main/java/telran/util/TreeSet.java:117-126 | true iff some element compared 0 with the pattern, and then exactly that element is removed; afterwards none matches; otherwise nothing changes |
| TreeSets.TreeSet.Size | src/main/java/telran/util/TreeSet.java:173-176 | the number of elements |
| TreeSets.TreeSet.IsEmpty | src/main/java/telran/util/TreeSet.java:178-181 | true iff there are no elements |
| TreeSets.TreeSet.Iterator | src/main/java/telran/util/TreeSet.java:198-201 | a fresh iterator before the least element |
| TreeSets.TreeSetIterator.constructor | src/main/java/telran/util/TreeSet.java:25-28 | corrected: `current` is the least node, or null on an empty set, with no `last` |
| TreeSets.TreeSetIterator.StartAsWritten | src/main/java/telran/util/TreeSet.java:25-28 | as written: `getLeastFrom(root)` fails with NullPointer exactly when the set is empty, else yields the least node |
| TreeSets.TreeSetIterator.HasNext | src/main/java/telran/util/TreeSet.java:31-33 | true iff elements remain |
| TreeSets.TreeSetIterator.Next | src/main/java/telran/util/TreeSet.java:36-43 | returns the element at the position in ascending order, remembers its node as `last` and advances; at the end, NoSuchElement and nothing changes |
| TreeSets.TreeSetIterator.Remove | src/main/java/telran/util/TreeSet.java:46-52 | IllegalState when there is no `last`; otherwise the element `next` returned leaves the set, the cursor stays on the same next node, and `last` is cleared |
| TreeSets.TreeSetIterator.GetLeastFrom | src/main/java/telran/util/TreeSet.java:54-59 | the first node in order of the subtree |
| TreeSets.TreeSetIterator.GetNextCurrent | src/main/java/telran/util/TreeSet.java:61-63 | the node following `node` in order, or null after the last |
| TreeSets.TreeSetIterator.GetGreaterParent | src/main/java/telran/util/TreeSet.java:65-72 | the first node after `node`'s subtree in order, or null when none follows |

## Left out

- Test classes, timing and `stream`/`parallelStream` are not modelled. They drive the containers; they are not part of them.
- TreeSet `first`, `last`, `floor`, `ceiling` and `subSet` (src/main/java/telran/util/TreeSet.java:236-264) are not modelled. They only throw UnsupportedOperationException.
- The natural-order TreeSet constructor (src/main/java/telran/util/TreeSet.java:83-85) is not modelled. The comparator is always passed.
- Comparators: the comparator is a function `cmp` required to obey `Comparator`'s laws (`IsComparator`). An inconsistent comparator, which Java does not reject, is not modelled.
- Equality and hashing: `equals` and `hashCode` are a key projection and a hash of the key. An `equals` that is not an equivalence, or a hash inconsistent with it, is not modelled.
- HashSet load factor: the `float` factor is the rational `factorNum / factorDen`, default 3/4. The growth test is `size * factorDen >= length * factorNum`, with no IEEE rounding.
- Integer width: sizes, indices and hash codes are unbounded integers, so 32-bit overflow of `size` and of `length * 2` is not modelled. `getIndex` does model Java's truncating `%`.
- HashSets.HashSet.constructor: requires a table length > 0. The source accepts 0, and then `getIndex` divides by zero.
- ArrayLists.ArrayList.constructor: requires a capacity > 0 (the parameter is a `nat`). The source accepts 0, and then the doubling in `reallocate` never makes room. It also accepts a negative capacity and throws NegativeArraySizeException at `new Object[capacity]`; that exception is not modelled.
- LinkedLists.LinkedList.RemovePattern: it is built on the corrected `remove(index)`. As written, `remove(pattern)` of the last element of a list of two or more throws NullPointerException through `remove(size - 1)`; see Findings.
- TreeSets.TreeSet.GetParent: requires a non-empty tree. The source dereferences the null result on an empty one, and its only caller, `addAfterParent`, runs only on a non-empty tree.
- Object identity: Java nodes are arena cells addressed by `nat` ids. An unreachable node is removed from the arena, which stands for `setNulls` clearing its fields; the Java node lingers until garbage collection.
- HashSet buckets are `seq<T>` rather than `ArrayList` objects. A null bucket and an empty bucket are both the empty sequence.
- HashSetIterator remove: the source delegates to the bucket iterator. That iterator does not override `remove`, so Java's default throws UnsupportedOperationException and `size--` never runs. The model returns that error.
- LinkedHashSet: the source builds on `LinkedList.Node`, `addNode`, `removeNode` and a `HashMap`, and the shown `LinkedList` does not expose them. LinkedHashSet is therefore modelled as intended: an element list plus a key index.
- AbstractMap: its abstract `getEmptyKeySet()` is fixed to a HashSet of keys, and `set` to a HashSet of entries. Other implementations of the interfaces are not modelled.

## Findings

| source | as written | input that shows it | evidently intended | confidence | as-written member | corrected member |
|---|---|---|---|---|---|---|
| src/main/java/telran/util/LinkedList.java:133-151 | `remove(index)` checks the index with `checkIndex(index, true)`, so `index == size` passes. That branch calls `removeTail`, which keeps the new tail's `next`. `index == size - 1 > 0` goes to `removeMiddle`, which sets `nodeBefore.next` to null and then dereferences the null `nodeAfter`. `remove(pattern)` (src/main/java/telran/util/List.java:14-22) reaches the same branch for the last element. | On `[a, b]`: `remove(1)` and `remove(b)` throw NullPointerException and leave `a.next` null with size 2, and `remove(2)` returns `b` but leaves `a.next` pointing at the dropped node. On an empty list, `remove(0)` throws NullPointerException. | IndexOutOfBounds unless `0 <= index < size`, and the last element goes through `removeTail` with the new tail's `next` cleared | high (not executed) | LinkedLists.RemoveAsWrittenCounterexample | LinkedLists.LinkedList.Remove |
| src/main/java/telran/util/TreeSet.java:25-28 | The iterator's constructor calls `getLeastFrom(root)`, whose loop reads `node.left` with `node == root`. | `iterator()` on an empty TreeSet (`root == null`) throws NullPointerException. | An iterator on an empty set whose `hasNext()` is false | high (not executed) | TreeSets.TreeSetIterator.StartAsWritten | TreeSets.TreeSetIterator.constructor |
