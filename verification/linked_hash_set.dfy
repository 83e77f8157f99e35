/** `LinkedHashSet`: an insertion-ordered set kept as an order list plus an
    index from each element's equality class to the stored element. Both
    structures change together. Element equality is a key projection, as in
    `HashSets`: two elements are equal when their keys are. */
module LinkedHashSets {
  import opened Outcomes
  import opened Lists
  import HashSets

  /** The index an order list induces: each key maps to the element that
      carries it. */
  ghost function KeyIndex<T, K>(s: seq<T>, key: T -> K): map<K, T> {
    if s == [] then map[] else KeyIndex(s[1..], key)[key(s[0]) := s[0]]
  }

  /** The order list without the element whose key is `k`. */
  function Without<T, K(==)>(s: seq<T>, key: T -> K, k: K): (r: seq<T>)
    ensures |r| <= |s|
  {
    if s == [] then []
    else if key(s[0]) == k then Without(s[1..], key, k)
    else [s[0]] + Without(s[1..], key, k)
  }

  /** Every listed key is indexed, and every index entry is a listed
      element under its own key. */
  lemma {:induction false} KeyIndexCovers<T, K>(s: seq<T>, key: T -> K)
    ensures forall i :: 0 <= i < |s| ==> key(s[i]) in KeyIndex(s, key)
    ensures forall k :: k in KeyIndex(s, key) ==> KeyIndex(s, key)[k] in s && key(KeyIndex(s, key)[k]) == k
  {
    if s != [] {
      KeyIndexCovers(s[1..], key);
      forall i | 0 < i < |s|
        ensures key(s[i]) in KeyIndex(s, key)
      {
        assert s[i] == s[1..][i - 1];
      }
    }
  }

  /** Distinct keys stay distinct in the tail. */
  lemma DistinctTail<T, K>(s: seq<T>, key: T -> K)
    requires HashSets.DistinctKeys(s, key) && s != []
    ensures HashSets.DistinctKeys(s[1..], key)
  {
    forall a, b | 0 <= a < b < |s[1..]|
      ensures key(s[1..][a]) != key(s[1..][b])
    {
      assert key(s[a + 1]) != key(s[b + 1]);
    }
  }

  /** With distinct keys no later element shares the first one's key. */
  lemma HeadKeyFresh<T, K>(s: seq<T>, key: T -> K)
    requires HashSets.DistinctKeys(s, key) && s != []
    ensures forall j :: 0 <= j < |s[1..]| ==> key(s[1..][j]) != key(s[0])
  {
    forall j | 0 <= j < |s[1..]|
      ensures key(s[1..][j]) != key(s[0])
    {
      assert key(s[0]) != key(s[j + 1]);
    }
  }

  /** Distinct keys stay distinct when one element is dropped. */
  lemma DistinctRemoveAt<T, K>(s: seq<T>, key: T -> K, i: int)
    requires HashSets.DistinctKeys(s, key) && 0 <= i < |s|
    ensures HashSets.DistinctKeys(RemoveAt(s, i), key)
  {
    forall a, b | 0 <= a < b < |RemoveAt(s, i)|
      ensures key(RemoveAt(s, i)[a]) != key(RemoveAt(s, i)[b])
    {
      RemoveAtShifts(s, i, a);
      RemoveAtShifts(s, i, b);
      assert key(s[if a < i then a else a + 1]) != key(s[if b < i then b else b + 1]);
    }
  }

  /** With distinct keys the index returns each listed element under its key. */
  lemma {:induction false} KeyIndexAt<T, K>(s: seq<T>, key: T -> K, i: int)
    requires HashSets.DistinctKeys(s, key) && 0 <= i < |s|
    ensures key(s[i]) in KeyIndex(s, key) && KeyIndex(s, key)[key(s[i])] == s[i]
  {
    KeyIndexCovers(s, key);
    if i > 0 {
      DistinctTail(s, key);
      assert s[1..][i - 1] == s[i];
      KeyIndexAt(s[1..], key, i - 1);
      assert key(s[0]) != key(s[i]);
    }
  }

  /** With distinct keys there are as many index entries as listed elements. */
  lemma {:induction false} KeyIndexSize<T, K>(s: seq<T>, key: T -> K)
    requires HashSets.DistinctKeys(s, key)
    ensures |KeyIndex(s, key)| == |s|
  {
    if s != [] {
      DistinctTail(s, key);
      KeyIndexSize(s[1..], key);
      HeadKeyFresh(s, key);
      KeyIndexHas(s[1..], key, key(s[0]));
    }
  }

  /** A key is indexed exactly when some listed element carries it. */
  lemma KeyIndexHas<T, K>(s: seq<T>, key: T -> K, k: K)
    ensures k in KeyIndex(s, key) <==> exists i :: 0 <= i < |s| && key(s[i]) == k
  {
    KeyIndexCovers(s, key);
    if k in KeyIndex(s, key) {
      var j :| 0 <= j < |s| && s[j] == KeyIndex(s, key)[k];
      assert key(s[j]) == k;
    }
  }

  /** An element whose key is not indexed keeps the keys distinct when
      appended. */
  lemma DistinctAppend<T, K>(s: seq<T>, key: T -> K, x: T)
    requires HashSets.DistinctKeys(s, key) && key(x) !in KeyIndex(s, key)
    ensures HashSets.DistinctKeys(s + [x], key)
  {
    KeyIndexCovers(s, key);
    forall a, b | 0 <= a < b < |s + [x]|
      ensures key((s + [x])[a]) != key((s + [x])[b])
    {
      if b == |s| {
        assert key(s[a]) in KeyIndex(s, key);
      }
    }
  }

  /** Appending an element with a new key extends the index by that key. */
  lemma {:induction false} KeyIndexAppend<T, K>(s: seq<T>, key: T -> K, x: T)
    requires HashSets.DistinctKeys(s, key) && key(x) !in KeyIndex(s, key)
    ensures HashSets.DistinctKeys(s + [x], key)
    ensures KeyIndex(s + [x], key) == KeyIndex(s, key)[key(x) := x]
  {
    DistinctAppend(s, key, x);
    if s != [] {
      var t := s[1..];
      assert (s + [x])[1..] == t + [x];
      DistinctTail(s, key);
      KeyIndexAppend(t, key, x);
      calc {
        KeyIndex(s + [x], key);
        KeyIndex(t + [x], key)[key(s[0]) := s[0]];
        KeyIndex(t, key)[key(x) := x][key(s[0]) := s[0]];
        KeyIndex(t, key)[key(s[0]) := s[0]][key(x) := x];
      }
    }
  }

  /** Dropping the element at `i` from a list with distinct keys is what
      `Without` does for its key. */
  lemma {:induction false} WithoutRemoveAt<T, K>(s: seq<T>, key: T -> K, i: int)
    requires HashSets.DistinctKeys(s, key) && 0 <= i < |s|
    ensures Without(s, key, key(s[i])) == RemoveAt(s, i)
  {
    var k := key(s[i]);
    if i == 0 {
      assert RemoveAt(s, 0) == s[1..];
      HeadKeyFresh(s, key);
      WithoutAbsent(s[1..], key, k);
    } else {
      DistinctTail(s, key);
      assert RemoveAt(s, i) == [s[0]] + RemoveAt(s[1..], i - 1);
      assert s[1..][i - 1] == s[i];
      WithoutRemoveAt(s[1..], key, i - 1);
      assert key(s[0]) != k;
    }
  }

  /** Dropping the element at `i` from a list with distinct keys drops
      exactly its key from the index. */
  lemma {:induction false} KeyIndexRemoveAt<T, K>(s: seq<T>, key: T -> K, i: int)
    requires HashSets.DistinctKeys(s, key) && 0 <= i < |s|
    ensures KeyIndex(RemoveAt(s, i), key) == KeyIndex(s, key) - {key(s[i])}
  {
    var k := key(s[i]);
    if i == 0 {
      assert RemoveAt(s, 0) == s[1..];
      HeadKeyFresh(s, key);
      KeyIndexHas(s[1..], key, k);
      assert KeyIndex(s[1..], key) == KeyIndex(s[1..], key)[k := s[0]] - {k};
    } else {
      DistinctTail(s, key);
      var r := RemoveAt(s[1..], i - 1);
      assert RemoveAt(s, i) == [s[0]] + r;
      assert ([s[0]] + r)[1..] == r;
      assert s[1..][i - 1] == s[i];
      KeyIndexRemoveAt(s[1..], key, i - 1);
      assert key(s[0]) != k;
      assert KeyIndex(r, key)[key(s[0]) := s[0]] == KeyIndex(s[1..], key)[key(s[0]) := s[0]] - {k};
    }
  }

  /** Everything `remove` needs about dropping the element at `i`. */
  lemma KeyIndexRemove<T, K>(s: seq<T>, key: T -> K, i: int)
    requires HashSets.DistinctKeys(s, key) && 0 <= i < |s|
    ensures Without(s, key, key(s[i])) == RemoveAt(s, i)
    ensures HashSets.DistinctKeys(RemoveAt(s, i), key)
    ensures KeyIndex(RemoveAt(s, i), key) == KeyIndex(s, key) - {key(s[i])}
  {
    WithoutRemoveAt(s, key, i);
    DistinctRemoveAt(s, key, i);
    KeyIndexRemoveAt(s, key, i);
  }

  /** `Without` changes nothing when no element carries the key. */
  lemma {:induction false} WithoutAbsent<T, K>(s: seq<T>, key: T -> K, k: K)
    requires forall i :: 0 <= i < |s| ==> key(s[i]) != k
    ensures Without(s, key, k) == s
  {
    if s != [] {
      assert key(s[0]) != k;
      WithoutAbsent(s[1..], key, k);
      assert [s[0]] + s[1..] == s;
    }
  }

  class LinkedHashSet<T, K(==)> {
    const key: T -> K
    /** The order list: elements in insertion order. */
    var list: seq<T>
    /** The index: each stored element under its key. */
    var index: map<K, T>

    ghost predicate Valid()
      reads this
    {
      HashSets.DistinctKeys(list, key) && index == KeyIndex(list, key)
    }

    constructor (key: T -> K)
      ensures Valid() && this.key == key && list == []
    {
      this.key := key;
      list := [];
      index := map[];
    }

    /** `contains(pattern)`: the index holds the pattern's key, which is
        exactly when some listed element is equal to the pattern. */
    method Contains(pattern: T) returns (r: bool)
      requires Valid()
      ensures r <==> exists i :: 0 <= i < |list| && key(list[i]) == key(pattern)
    {
      KeyIndexHas(list, key, key(pattern));
      r := key(pattern) in index;
    }

    /** `add(obj)`: an element not yet present goes to the end of the order
        list and into the index; a present one changes nothing. */
    method Add(obj: T) returns (r: bool)
      requires Valid()
      modifies this
      ensures Valid()
      ensures r <==> !(exists i :: 0 <= i < |old(list)| && key(old(list)[i]) == key(obj))
      ensures r ==> list == old(list) + [obj] && index == old(index)[key(obj) := obj]
      ensures !r ==> list == old(list) && index == old(index)
    {
      r := false;
      var present := Contains(obj);
      if !present {
        KeyIndexHas(list, key, key(obj));
        KeyIndexAppend(list, key, obj);
        list := list + [obj];
        index := index[key(obj) := obj];
        r := true;
      }
    }

    /** `get(pattern)`: the stored element equal to the pattern, if any. */
    method Get(pattern: T) returns (r: Option<T>)
      requires Valid()
      ensures r.Some? <==> exists i :: 0 <= i < |list| && key(list[i]) == key(pattern)
      ensures r.Some? ==> r.value in list && key(r.value) == key(pattern)
    {
      KeyIndexHas(list, key, key(pattern));
      KeyIndexCovers(list, key);
      r := if key(pattern) in index then Some(index[key(pattern)]) else None;
    }

    /** `remove(pattern)`: when the index holds the pattern's key, its
        element leaves the order list and the index; returns whether it
        did. */
    method Remove(pattern: T) returns (r: bool)
      requires Valid()
      modifies this
      ensures Valid()
      ensures r <==> exists i :: 0 <= i < |old(list)| && key(old(list)[i]) == key(pattern)
      ensures r ==> exists i :: 0 <= i < |old(list)| && key(old(list)[i]) == key(pattern) && list == RemoveAt(old(list), i)
      ensures index == old(index) - {key(pattern)}
      ensures !r ==> list == old(list)
    {
      KeyIndexHas(list, key, key(pattern));
      r := false;
      if key(pattern) in index {
        ghost var i :| 0 <= i < |list| && key(list[i]) == key(pattern);
        KeyIndexRemove(list, key, i);
        list := Without(list, key, key(pattern));
        index := index - {key(pattern)};
        r := true;
      }
    }

    /** `size()`: the length of the order list, which is also the number of
        distinct elements in the index. */
    method Size() returns (r: nat)
      requires Valid()
      ensures r == |list| == |index|
    {
      KeyIndexSize(list, key);
      r := |list|;
    }

    /** `isEmpty()`. */
    method IsEmpty() returns (r: bool)
      requires Valid()
      ensures r <==> list == [] && index == map[]
    {
      KeyIndexSize(list, key);
      r := |list| == 0;
    }

    /** `iterator()`: walks the order list from its start. */
    method Iterator() returns (it: LinkedHashSetIterator<T, K>)
      requires Valid()
      ensures fresh(it) && it.Valid() && it.hashSet == this
      ensures it.position == 0 && it.current == None
    {
      it := new LinkedHashSetIterator(this);
    }
  }

  /** `LinkedHashSetIterator`: the order list's iterator and the element it
      returned last. */
  class LinkedHashSetIterator<T, K(==)> {
    const hashSet: LinkedHashSet<T, K>
    /** The cursor of the order list's iterator. */
    var position: nat
    /** The element `next` returned last; `None` is Java's null. */
    var current: Option<T>

    ghost predicate Valid()
      reads this, hashSet
    {
      && position <= |hashSet.list|
      && (current.Some? ==> 0 < position && hashSet.list[position - 1] == current.value)
    }

    constructor (hashSet: LinkedHashSet<T, K>)
      ensures Valid() && this.hashSet == hashSet && position == 0 && current == None
    {
      this.hashSet := hashSet;
      position := 0;
      current := None;
    }

    /** `hasNext()`. */
    method HasNext() returns (r: bool)
      requires Valid()
      ensures r <==> position < |hashSet.list|
    {
      r := position < |hashSet.list|;
    }

    /** `next()`: the next element of the order list, which becomes
        `current`; at the end, NoSuchElement and nothing changes. */
    method Next() returns (r: Result<T>)
      requires Valid()
      modifies this
      ensures Valid()
      ensures old(position) < |hashSet.list| ==>
                r == Ok(hashSet.list[old(position)]) && position == old(position) + 1 && current == Some(r.value)
      ensures old(position) >= |hashSet.list| ==>
                r == Err(NoSuchElement) && position == old(position) && current == old(current)
    {
      if position >= |hashSet.list| {
        return Err(NoSuchElement);
      }
      r := Ok(hashSet.list[position]);
      current := Some(hashSet.list[position]);
      position := position + 1;
    }

    /** `remove()`: the element `next` returned last leaves the order list
        and the index, and the cursor stays in front of the element that
        followed it; IllegalState when there is none. */
    method Remove() returns (r: Result<()>)
      requires Valid() && hashSet.Valid()
      modifies this, hashSet
      ensures Valid() && hashSet.Valid()
      ensures old(current).None? ==> r == Err(IllegalState) && hashSet.list == old(hashSet.list) && hashSet.index == old(hashSet.index)
      ensures old(current).Some? ==>
                && r == Ok(())
                && hashSet.list == RemoveAt(old(hashSet.list), old(position) - 1)
                && hashSet.index == old(hashSet.index) - {hashSet.key(old(current).value)}
                && position == old(position) - 1
                && current == None
    {
      if current.None? {
        return Err(IllegalState);
      }
      KeyIndexRemove(hashSet.list, hashSet.key, position - 1);
      hashSet.list := RemoveAt(hashSet.list, position - 1);
      hashSet.index := hashSet.index - {hashSet.key(current.value)};
      position := position - 1;
      current := None;
      r := Ok(());
    }
  }
}
