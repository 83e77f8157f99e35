/** `AbstractMap`: a map written entirely in terms of a set of entries that
    compare equal by key. The set is a `HashSet` keyed by the entry's key,
    as a hash map provides it; a value of `None` is Java's null. */
module AbstractMaps {
  import opened Outcomes
  import opened HashSets
  import LinkedLists

  /** `Entry`: a key and a value that `put` may overwrite in place. */
  class Entry<K, V> {
    const key: K
    var value: Option<V>

    constructor (key: K, value: Option<V>)
      ensures this.key == key && this.value == value
    {
      this.key := key;
      this.value := value;
    }
  }

  /** What entry equality compares. */
  function EntryKey<K, V>(e: Entry<K, V>): K {
    e.key
  }

  /** The keys of a sequence of entries. */
  ghost function KeysOf<K, V>(s: seq<Entry<K, V>>): set<K> {
    set i | 0 <= i < |s| :: s[i].key
  }

  /** The values of a sequence of entries, in order. */
  ghost function ValuesOf<K, V>(s: seq<Entry<K, V>>): seq<Option<V>>
    reads set i | 0 <= i < |s| :: s[i]
  {
    if s == [] then [] else ValuesOf(s[..|s| - 1]) + [s[|s| - 1].value]
  }

  /** `ValuesOf` keeps positions: the `i`th value is the `i`th entry's. */
  lemma {:induction false} ValuesOfAt<K, V>(s: seq<Entry<K, V>>)
    ensures |ValuesOf(s)| == |s|
    ensures forall i :: 0 <= i < |s| ==> ValuesOf(s)[i] == s[i].value
  {
    if s != [] {
      ValuesOfAt(s[..|s| - 1]);
    }
  }

  /** One more entry of the iteration contributes its key. */
  lemma KeysOfSnoc<K, V>(s: seq<Entry<K, V>>, n: nat)
    requires n < |s|
    ensures KeysOf(s[..n + 1]) == KeysOf(s[..n]) + {s[n].key}
  {
    assert s[..n + 1][n] == s[n];
    forall k | k in KeysOf(s[..n + 1])
      ensures k in KeysOf(s[..n]) + {s[n].key}
    {
      var i :| 0 <= i < n + 1 && s[..n + 1][i].key == k;
      if i < n {
        assert s[..n][i] == s[i];
      }
    }
  }

  /** One more entry of the iteration contributes its value. */
  lemma ValuesOfSnoc<K, V>(s: seq<Entry<K, V>>, n: nat)
    requires n < |s|
    ensures ValuesOf(s[..n + 1]) == ValuesOf(s[..n]) + [s[n].value]
  {
    assert s[..n + 1][..n] == s[..n];
  }

  /** The loop of `containsValue`: advances `it` until an entry's value
      equals `value` or the entries run out. */
  method ScanValues<K, V(==)>(it: HashSetIterator<Entry<K, V>, K>, value: Option<V>,
                              ghost es: seq<Entry<K, V>>, ghost vs: seq<Option<V>>) returns (found: bool)
    requires it.Valid() && it.Position() == 0 && it.hashSet.Elements() == es
    requires |vs| == |es| && forall i :: 0 <= i < |es| ==> es[i].value == vs[i]
    modifies it
    ensures found <==> value in vs
  {
    found := false;
    var more := it.HasNext();
    ghost var n := 0;
    while more && !found
      invariant it.Valid() && n == it.Position() <= |es|
      invariant more <==> n < |es|
      invariant found ==> value in vs
      invariant !found ==> forall j :: 0 <= j < n ==> vs[j] != value
      decreases |es| - n
    {
      var next := it.Next();
      var entryValue := next.value.value;
      assert entryValue == vs[n];
      if value.None? {
        found := entryValue.None?;
      } else {
        found := value == entryValue;
      }
      n := n + 1;
      more := it.HasNext();
    }
  }

  /** What key-set equality compares: the key itself. */
  function Identity<K>(k: K): K {
    k
  }

  /** `add` on the entry set of an entry whose key is absent: it is stored
      under that key. */
  method AddAbsent<K, V>(entries: HashSet<Entry<K, V>, K>, entry: Entry<K, V>)
    requires entries.Valid() && entries.key(entry) !in entries.Elems
    modifies entries, entries.table
    ensures entries.Valid() && entries.Elems == old(entries.Elems)[entries.key(entry) := entry]
    ensures entries.table == old(entries.table) || fresh(entries.table)
  {
    var _ := entries.Add(entry);
  }

  /** The loop of `keySet`: adds the key of every remaining entry to
      `keySet`. */
  method CollectKeys<K, V>(it: HashSetIterator<Entry<K, V>, K>, keySet: HashSet<K, K>, ghost es: seq<Entry<K, V>>)
    requires it.Valid() && it.Position() == 0 && it.hashSet.Elements() == es
    requires keySet.Valid() && keySet.Elems == map[] && keySet.key == Identity
    requires keySet != it.hashSet && keySet.table as object != it.hashSet.table
    modifies it, keySet, keySet.table
    ensures keySet.Valid() && keySet.Elems.Keys == KeysOf(es)
    ensures keySet.table == old(keySet.table) || fresh(keySet.table)
  {
    var more := it.HasNext();
    ghost var n := 0;
    while more
      invariant KeysCollected(it, keySet, es, n)
      invariant more <==> n < |es|
      invariant keySet.table == old(keySet.table) || fresh(keySet.table)
      decreases |es| - n
    {
      more := AddNextKey(it, keySet, es, n);
      n := n + 1;
    }
    assert es[..n] == es;
  }

  /** The state of the `keySet` loop after `n` entries: the iterator stands
      before entry `n`, and `keySet`, kept apart from the iterated set,
      holds the keys of the entries before it. */
  ghost predicate KeysCollected<K, V>(it: HashSetIterator<Entry<K, V>, K>, keySet: HashSet<K, K>,
                                      es: seq<Entry<K, V>>, n: nat)
    reads it, it.hashSet, it.hashSet.table, keySet, keySet.table
  {
    && it.Valid() && it.Position() == n <= |es| && it.hashSet.Elements() == es
    && keySet != it.hashSet && keySet.table as object != it.hashSet.table
    && keySet.Valid() && keySet.key == Identity && keySet.Elems.Keys == KeysOf(es[..n])
  }

  /** One step of `keySet`: the next entry's key joins `keySet`, and the
      iterator is asked for more. */
  method AddNextKey<K, V>(it: HashSetIterator<Entry<K, V>, K>, keySet: HashSet<K, K>, ghost es: seq<Entry<K, V>>, ghost n: nat)
      returns (more: bool)
    requires KeysCollected(it, keySet, es, n) && n < |es|
    modifies it, keySet, keySet.table
    ensures KeysCollected(it, keySet, es, n + 1)
    ensures more <==> n + 1 < |es|
    ensures keySet.table == old(keySet.table) || fresh(keySet.table)
  {
    var next := it.Next();
    var entry := next.value;
    KeysOfSnoc(es, n);
    AddKey(keySet, entry.key);
    more := it.HasNext();
  }

  /** `add` on a key set: the key joins the stored keys. */
  method AddKey<K>(keySet: HashSet<K, K>, k: K)
    requires keySet.Valid() && keySet.key == Identity
    modifies keySet, keySet.table
    ensures keySet.Valid() && keySet.Elems.Keys == old(keySet.Elems.Keys) + {k}
    ensures keySet.table == old(keySet.table) || fresh(keySet.table)
  {
    var _ := keySet.Add(k);
  }

  /** The loop of `values`: appends the value of every remaining entry to
      `collection`. */
  method CollectValues<K, V(==)>(it: HashSetIterator<Entry<K, V>, K>, collection: LinkedLists.LinkedList<Option<V>>,
                                 ghost es: seq<Entry<K, V>>, ghost vs: seq<Option<V>>)
    requires it.Valid() && it.Position() == 0 && it.hashSet.Elements() == es
    requires |vs| == |es| && forall i :: 0 <= i < |es| ==> es[i].value == vs[i]
    requires collection.Valid() && collection.Contents == []
    modifies it, collection
    ensures collection.Valid() && collection.Contents == vs
  {
    var more := it.HasNext();
    ghost var n := 0;
    while more
      invariant it.Valid() && n == it.Position() <= |es| && it.hashSet.Elements() == es
      invariant more <==> n < |es|
      invariant collection.Valid() && collection.Contents == vs[..n]
      decreases |es| - n
    {
      more := AddNextValue(it, collection, es, vs, n);
      n := n + 1;
    }
    assert vs[..n] == vs;
  }

  /** One step of `values`: the next entry's value is appended, and the
      iterator is asked for more. */
  method AddNextValue<K, V(==)>(it: HashSetIterator<Entry<K, V>, K>, collection: LinkedLists.LinkedList<Option<V>>,
                                ghost es: seq<Entry<K, V>>, ghost vs: seq<Option<V>>, ghost n: nat)
      returns (more: bool)
    requires it.Valid() && it.Position() == n < |es| && it.hashSet.Elements() == es
    requires |vs| == |es| && es[n].value == vs[n]
    requires collection.Valid() && collection.Contents == vs[..n]
    modifies it, collection
    ensures it.Valid() && it.Position() == n + 1 && it.hashSet.Elements() == es
    ensures more <==> n + 1 < |es|
    ensures collection.Valid() && collection.Contents == vs[..n + 1]
  {
    var next := it.Next();
    var entry := next.value;
    assert vs[..n + 1] == vs[..n] + [entry.value];
    var _ := collection.Add(entry.value);
    more := it.HasNext();
  }

  class AbstractMap<K(==), V(==)> {
    /** The entry set, `set` in the source. */
    const entries: HashSet<Entry<K, V>, K>

    ghost predicate Valid()
      reads this, entries, entries.table
    {
      && entries.Valid()
      && entries.key == EntryKey
    }

    /** The mapping the entries stand for: each key to its entry's value. */
    ghost function Mapping(): map<K, Option<V>>
      reads this, entries, entries.Elems.Values
    {
      map k | k in entries.Elems :: entries.Elems[k].value
    }

    /** What `get` promises: the value under `key`, null when absent. */
    ghost function Lookup(key: K): Option<V>
      reads this, entries, entries.Elems.Values
    {
      if key in Mapping() then Mapping()[key] else None
    }

    /** A map over a fresh, empty entry set hashing keys with `hash`. */
    constructor (hash: K -> int)
      ensures Valid() && Mapping() == map[] && entries.Elems == map[]
      ensures fresh(entries) && fresh(entries.table)
    {
      entries := new HashSet.Default(EntryKey, hash);
    }

    /** Every entry is filed under its own key, so the set's elements and
        the mapping's keys correspond. */
    lemma EntriesEnumerate()
      requires Valid()
      ensures forall k :: k in entries.Elems ==> entries.Elems[k].key == k
      ensures KeysOf(entries.Elements()) == Mapping().Keys
      ensures |entries.Elements()| == |Mapping()|
    {
      entries.ElementsEnumerate();
      entries.StoredUnderKey();
      var es := entries.Elements();
      forall k | k in Mapping().Keys
        ensures k in KeysOf(es)
      {
        assert entries.Elems[k] in entries.Elems.Values;
        var i :| 0 <= i < |es| && es[i] == entries.Elems[k];
        assert es[i].key == k;
      }
      forall k | k in KeysOf(es)
        ensures k in Mapping().Keys
      {
        var i :| 0 <= i < |es| && es[i].key == k;
        assert es[i] in entries.Elems.Values;
        var k' :| k' in entries.Elems && entries.Elems[k'] == es[i];
        assert entries.Elems[k'].key == k';
      }
      assert Mapping().Keys == entries.Elems.Keys;
    }

    /** `get(key)`: the value of the entry whose key equals `key`, or null. */
    method Get(key: K) returns (r: Option<V>)
      requires Valid()
      ensures r == Lookup(key)
    {
      var pattern := new Entry(key, None);
      var entry := entries.Get(pattern);
      r := None;
      if entry.Some? {
        r := entry.value.value;
      }
    }

    /** `put(key, value)`: an existing entry gets the new value in place and
        its old value is returned; otherwise a new entry joins the set and
        null is returned. Either way `get(key)` then yields `value`. */
    method Put(key: K, value: Option<V>) returns (r: Option<V>)
      requires Valid()
      modifies entries, entries.table, entries.Elems.Values
      ensures Valid()
      ensures r == old(Lookup(key))
      ensures Mapping() == old(Mapping())[key := value]
      ensures key in old(Mapping()) ==> entries.Elems == old(entries.Elems)
      ensures key !in old(Mapping()) ==> |entries.Elems| == old(|entries.Elems|) + 1
      ensures entries.table == old(entries.table) || fresh(entries.table)
      ensures forall e :: e in entries.Elems.Values ==> e in old(entries.Elems.Values) || fresh(e)
    {
      entries.StoredUnderKey();
      var entryToAdd := new Entry(key, value);
      var existingEntry := entries.Get(entryToAdd);
      ghost var before := Mapping();
      assert before == old(Mapping());
      r := None;
      if existingEntry.Some? {
        r := existingEntry.value.value;
        SetValue(existingEntry.value, value);
        assert existingEntry.value.key == key;
      } else {
        AddEntry(entryToAdd);
      }
      assert Mapping() == before[key := value];
    }

    /** `setValue` on a stored entry: only that key's value changes. */
    method SetValue(existing: Entry<K, V>, value: Option<V>)
      requires Valid() && existing.key in entries.Elems && entries.Elems[existing.key] == existing
      modifies existing
      ensures Valid()
      ensures Mapping() == old(Mapping())[existing.key := value]
    {
      EntriesEnumerate();
      ghost var before := Mapping();
      forall k | k in entries.Elems && k != existing.key
        ensures entries.Elems[k] != existing
      {
        assert entries.Elems[k].key == k;
      }
      existing.value := value;
      forall k | k in entries.Elems && k != existing.key
        ensures entries.Elems[k].value == before[k]
      {
      }
      assert Mapping().Keys == before.Keys;
    }

    /** `add` of a fresh entry whose key is absent: the mapping gains it. */
    method AddEntry(entry: Entry<K, V>)
      requires Valid() && entry.key !in entries.Elems
      modifies entries, entries.table
      ensures Valid()
      ensures Mapping() == old(Mapping())[entry.key := entry.value]
      ensures |entries.Elems| == old(|entries.Elems|) + 1
      ensures entries.Elems == old(entries.Elems)[entry.key := entry]
      ensures entries.table == old(entries.table) || fresh(entries.table)
    {
      ghost var before := Mapping();
      ghost var elems := entries.Elems;
      AddAbsent(entries, entry);
      ghost var want := before[entry.key := entry.value];
      forall k | k in entries.Elems
        ensures k in want && entries.Elems[k].value == want[k]
      {
        if k != entry.key {
          assert elems[k] in old(entries.Elems.Values);
        }
      }
      assert Mapping().Keys == want.Keys;
    }

    /** `containsKey(key)`: the set contains an entry with that key. */
    method ContainsKey(key: K) returns (r: bool)
      requires Valid()
      ensures r <==> key in Mapping()
    {
      var pattern := new Entry(key, None);
      r := entries.Contains(pattern);
    }

    /** `containsValue(value)`: a scan of the entries in iteration order that
        stops at the first equal value; null matches only null. */
    method ContainsValue(value: Option<V>) returns (r: bool)
      requires Valid()
      ensures r <==> exists k :: k in Mapping() && Mapping()[k] == value
    {
      ghost var es := entries.Elements();
      ghost var vs := ValuesOf(es);
      ValuesOfAt(es);
      entries.ElementsEnumerate();
      forall i | 0 <= i < |es|
        ensures allocated(es[i])
      {
        assert es[i] in entries.Elems.Values;
      }
      var it := entries.Iterator();
      r := ScanValues(it, value, es, vs);
      ValuesOfAt(es);
      forall i | 0 <= i < |es|
        ensures ValuesOf(es)[i] == vs[i]
      {
        assert es[i].value == old(es[i].value);
      }
      ValueListed(value);
    }

    /** A value occurs in iteration order exactly when some key maps to it. */
    lemma ValueListed(value: Option<V>)
      requires Valid()
      ensures value in ValuesOf(entries.Elements()) <==> exists k :: k in Mapping() && Mapping()[k] == value
    {
      var es := entries.Elements();
      entries.ElementsEnumerate();
      ValuesOfAt(es);
      if value in ValuesOf(es) {
        var i :| 0 <= i < |es| && ValuesOf(es)[i] == value;
        assert es[i] in entries.Elems.Values;
        var k :| k in entries.Elems && entries.Elems[k] == es[i];
        assert k in Mapping() && Mapping()[k] == es[i].value;
      }
      if k :| k in Mapping() && Mapping()[k] == value {
        assert entries.Elems[k] in entries.Elems.Values;
        var i :| 0 <= i < |es| && es[i] == entries.Elems[k];
        assert ValuesOf(es)[i] == value;
      }
    }

    /** `keySet()`: a fresh key set holding the key of every entry. */
    method KeySet() returns (keySet: HashSet<K, K>)
      requires Valid()
      ensures fresh(keySet) && fresh(keySet.table) && keySet.Valid()
      ensures keySet.Elems.Keys == Mapping().Keys
      ensures forall k :: k in keySet.Elems ==> keySet.Elems[k] == k
    {
      keySet := new HashSet.Default(Identity, entries.hash);
      var it := entries.Iterator();
      CollectKeys(it, keySet, entries.Elements());
      EntriesEnumerate();
      keySet.StoredUnderKey();
    }

    /** `entrySet()`: the entry set itself, not a copy. */
    method EntrySet() returns (r: HashSet<Entry<K, V>, K>)
      ensures r == entries
    {
      r := entries;
    }

    /** `values()`: a fresh linked list with the value of every entry, in
        iteration order, duplicates kept. */
    method Values() returns (collection: LinkedLists.LinkedList<Option<V>>)
      requires Valid()
      ensures fresh(collection) && collection.Valid()
      ensures collection.Contents == ValuesOf(entries.Elements())
      ensures |collection.Contents| == |Mapping()|
      ensures forall k :: k in Mapping() ==> Mapping()[k] in collection.Contents
    {
      ghost var es := entries.Elements();
      ghost var vs := ValuesOf(es);
      ValuesOfAt(es);
      entries.ElementsEnumerate();
      forall i | 0 <= i < |es|
        ensures allocated(es[i])
      {
        assert es[i] in entries.Elems.Values;
      }
      collection := new LinkedLists.LinkedList();
      var it := entries.Iterator();
      CollectValues(it, collection, es, vs);
      ValuesOfAt(es);
      forall i | 0 <= i < |es|
        ensures ValuesOf(es)[i] == vs[i]
      {
        assert es[i].value == old(es[i].value);
      }
      assert ValuesOf(es) == vs;
      ValuesCover();
    }

    /** Iteration order lists one value per key, and every key's value. */
    lemma ValuesCover()
      requires Valid()
      ensures |ValuesOf(entries.Elements())| == |Mapping()|
      ensures forall k :: k in Mapping() ==> Mapping()[k] in ValuesOf(entries.Elements())
    {
      var es := entries.Elements();
      EntriesEnumerate();
      ValuesOfAt(es);
      entries.ElementsEnumerate();
      forall k | k in Mapping()
        ensures Mapping()[k] in ValuesOf(es)
      {
        assert entries.Elems[k] in entries.Elems.Values;
        var i :| 0 <= i < |es| && es[i] == entries.Elems[k];
        assert ValuesOf(es)[i] == Mapping()[k];
      }
    }

    /** `size()`: the number of entries, one per key. */
    method Size() returns (r: nat)
      requires Valid()
      ensures r == |Mapping()|
    {
      EntriesEnumerate();
      r := entries.Size();
    }

    /** `isEmpty()`. */
    method IsEmpty() returns (r: bool)
      requires Valid()
      ensures r <==> Mapping() == map[]
    {
      r := entries.IsEmpty();
      assert Mapping().Keys == entries.Elems.Keys;
    }
  }
}
