/** `HashSet`: separate chaining over an array of buckets. Element equality
    is equality of keys (`key`), and `hash` is the hash code of a key, so
    equal elements always have equal hash codes. A null bucket and an empty
    bucket behave alike and are both the empty sequence here. */
module HashSets {
  import opened Outcomes
  import opened Lists

  const DEFAULT_HASH_TABLE_LENGTH: nat := 16
  /** The default load factor 0.75, as the fraction 3/4. */
  const DEFAULT_FACTOR_NUM: nat := 3
  const DEFAULT_FACTOR_DEN: nat := 4

  function Abs(x: int): nat {
    if x < 0 then -x else x
  }

  /** Java's `%`: the remainder truncated toward zero, which takes the sign
      of the dividend. */
  function JavaRem(a: int, n: int): int
    requires n != 0
  {
    if a >= 0 then a % Abs(n) else -((-a) % Abs(n))
  }

  /** `getIndex`: `Math.abs(hashCode % length)`. It is the bucket of the
      absolute value of the hash code, so it always lies in `[0, length)`,
      and a hash code and its negation share a bucket. */
  function GetIndex(hashCode: int, length: int): (r: nat)
    requires length > 0
    ensures r < length
    ensures r == Abs(hashCode) % length
  {
    Abs(JavaRem(hashCode, length))
  }

  /** The elements of the buckets, bucket by bucket: the iteration order. */
  function Flatten<T>(buckets: seq<seq<T>>): seq<T> {
    if buckets == [] then [] else Flatten(buckets[..|buckets| - 1]) + buckets[|buckets| - 1]
  }

  lemma FlattenPrefix<T>(s: seq<seq<T>>, n: nat)
    requires n < |s|
    ensures Flatten(s[..n + 1]) == Flatten(s[..n]) + s[n]
  {
    assert s[..n + 1][..n] == s[..n];
  }

  /** The elements of the first `n` buckets come first. */
  lemma {:induction false} FlattenPrefixOf<T>(s: seq<seq<T>>, n: nat)
    requires n <= |s|
    ensures Flatten(s[..n]) <= Flatten(s)
    decreases |s|
  {
    if n < |s| {
      var init := s[..|s| - 1];
      assert init[..n] == s[..n];
      FlattenPrefixOf(init, n);
    } else {
      assert s[..n] == s;
    }
  }

  /** Element `pos` of bucket `b` sits in the flattened sequence right after
      the elements of the buckets before `b`. */
  lemma FlattenAt<T>(s: seq<seq<T>>, b: nat, pos: nat)
    requires b < |s| && pos < |s[b]|
    ensures |Flatten(s[..b])| + pos < |Flatten(s)|
    ensures Flatten(s)[|Flatten(s[..b])| + pos] == s[b][pos]
  {
    FlattenPrefix(s, b);
    FlattenPrefixOf(s, b + 1);
  }

  /** Replacing one bucket changes the number of elements by the difference
      of the bucket sizes. */
  lemma {:induction false} FlattenUpdateLength<T>(s: seq<seq<T>>, b: nat, t: seq<T>)
    requires b < |s|
    ensures |Flatten(s[b := t])| == |Flatten(s)| - |s[b]| + |t|
    decreases |s|
  {
    var n := |s| - 1;
    assert s[b := t][..n] == if b == n then s[..n] else s[..n][b := t];
    if b < n {
      FlattenUpdateLength(s[..n], b, t);
    }
  }

  /** Buckets `m` to `n - 1` are all empty. */
  ghost predicate AllEmpty<T>(s: seq<seq<T>>, m: int, n: int) {
    forall i :: m <= i < n && 0 <= i < |s| ==> s[i] == []
  }

  /** Empty buckets contribute nothing. */
  lemma {:induction false} FlattenEmptyRange<T>(s: seq<seq<T>>, m: nat, n: nat)
    requires m <= n <= |s|
    requires AllEmpty(s, m, n)
    ensures Flatten(s[..n]) == Flatten(s[..m])
    decreases n
  {
    if m < n {
      FlattenPrefix(s, n - 1);
      FlattenEmptyRange(s, m, n - 1);
    }
  }

  /** Every element of a bucket is an element of the flattened sequence. */
  lemma {:induction false} FlattenHas<T>(s: seq<seq<T>>, b: nat, x: T)
    requires b < |s| && x in s[b]
    ensures x in Flatten(s)
    decreases |s|
  {
    var n := |s| - 1;
    if b < n {
      FlattenHas(s[..n], b, x);
    }
  }

  /** Every element of the flattened sequence comes from some bucket. */
  lemma {:induction false} FlattenSource<T>(s: seq<seq<T>>, x: T) returns (b: nat, i: nat)
    requires x in Flatten(s)
    ensures b < |s| && i < |s[b]| && s[b][i] == x
    decreases |s|
  {
    var n := |s| - 1;
    if x in s[n] {
      b := n;
      i :| 0 <= i < |s[n]| && s[n][i] == x;
    } else {
      b, i := FlattenSource(s[..n], x);
    }
  }

  /** Position `i` of bucket `b` holds the element stored under its key, and
      that key hashes to `b`. */
  ghost predicate Placed<T, K>(buckets: seq<seq<T>>, elems: map<K, T>, key: T -> K, hash: K -> int, b: int, i: int)
    requires 0 <= b < |buckets| && 0 <= i < |buckets[b]|
  {
    var x := buckets[b][i];
    && key(x) in elems && elems[key(x)] == x
    && |buckets| > 0 && GetIndex(hash(key(x)), |buckets|) == b
  }

  /** Positions `i` and `j` of a bucket hold elements with different keys. */
  ghost predicate KeyApart<T, K>(bucket: seq<T>, key: T -> K, i: int, j: int)
    requires 0 <= i < |bucket| && 0 <= j < |bucket|
  {
    key(bucket[i]) != key(bucket[j])
  }

  /** The element stored under `k` carries that key and sits in the bucket
      of its hash. */
  ghost predicate Filed<T, K>(buckets: seq<seq<T>>, elems: map<K, T>, key: T -> K, hash: K -> int, k: K)
    requires |buckets| > 0 && k in elems
  {
    key(elems[k]) == k && elems[k] in buckets[GetIndex(hash(k), |buckets|)]
  }

  /** The table `buckets` stores exactly the elements of `elems`, each in
      the bucket of its key and once. */
  ghost predicate Hashed<T, K>(buckets: seq<seq<T>>, elems: map<K, T>, key: T -> K, hash: K -> int) {
    && |buckets| > 0
    && (forall b, i :: 0 <= b < |buckets| && 0 <= i < |buckets[b]| ==> Placed(buckets, elems, key, hash, b, i))
    && (forall b, i, j :: 0 <= b < |buckets| && 0 <= i < j < |buckets[b]| ==> KeyApart(buckets[b], key, i, j))
    && (forall k {:trigger Filed(buckets, elems, key, hash, k)} :: k in elems ==> Filed(buckets, elems, key, hash, k))
  }

  /** An empty table stores nothing. */
  lemma HashedEmpty<T, K>(n: nat, key: T -> K, hash: K -> int)
    requires n > 0
    ensures Hashed(seq(n, _ => []), map[], key, hash)
  {
  }

  /** `addObjInHashTable` of an element with a new key appends it to the
      bucket of its key and keeps the table hashed. */
  lemma HashedAdd<T, K>(buckets: seq<seq<T>>, elems: map<K, T>, key: T -> K, hash: K -> int, x: T)
    requires Hashed(buckets, elems, key, hash) && key(x) !in elems
    ensures var b := GetIndex(hash(key(x)), |buckets|);
            Hashed(buckets[b := buckets[b] + [x]], elems[key(x) := x], key, hash)
  {
    var b := GetIndex(hash(key(x)), |buckets|);
    var buckets', elems' := buckets[b := buckets[b] + [x]], elems[key(x) := x];
    forall c, i | 0 <= c < |buckets'| && 0 <= i < |buckets'[c]|
      ensures Placed(buckets', elems', key, hash, c, i)
    {
      if c != b || i < |buckets[b]| {
        assert Placed(buckets, elems, key, hash, c, i);
      }
    }
    forall c, i, j | 0 <= c < |buckets'| && 0 <= i < j < |buckets'[c]|
      ensures KeyApart(buckets'[c], key, i, j)
    {
      if c != b || j < |buckets[b]| {
        assert KeyApart(buckets[c], key, i, j);
      } else {
        assert Placed(buckets, elems, key, hash, c, i);
      }
    }
    forall k | k in elems'
      ensures Filed(buckets', elems', key, hash, k)
    {
      if k != key(x) {
        assert Filed(buckets, elems, key, hash, k);
      }
    }
  }

  /** The default `remove(pattern)` of a bucket takes out the element with
      the pattern's key and keeps the table hashed without that key. */
  lemma HashedRemove<T, K>(buckets: seq<seq<T>>, elems: map<K, T>, key: T -> K, hash: K -> int, k: K, i: nat)
    requires Hashed(buckets, elems, key, hash)
    requires var b := GetIndex(hash(k), |buckets|); i < |buckets[b]| && key(buckets[b][i]) == k
    ensures k in elems
    ensures var b := GetIndex(hash(k), |buckets|);
            Hashed(buckets[b := RemoveAt(buckets[b], i)], elems - {k}, key, hash)
  {
    var b := GetIndex(hash(k), |buckets|);
    assert Placed(buckets, elems, key, hash, b, i);
    var buckets', elems' := buckets[b := RemoveAt(buckets[b], i)], elems - {k};
    forall c, j | 0 <= c < |buckets'| && 0 <= j < |buckets'[c]|
      ensures Placed(buckets', elems', key, hash, c, j)
    {
      if c != b {
        assert Placed(buckets, elems, key, hash, c, j);
      } else {
        RemoveAtShifts(buckets[b], i, j);
        var j0 := if j < i then j else j + 1;
        assert Placed(buckets, elems, key, hash, c, j0);
        assert KeyApart(buckets[b], key, if j0 < i then j0 else i, if j0 < i then i else j0);
      }
    }
    forall c, j, l | 0 <= c < |buckets'| && 0 <= j < l < |buckets'[c]|
      ensures KeyApart(buckets'[c], key, j, l)
    {
      if c != b {
        assert KeyApart(buckets[c], key, j, l);
      } else {
        RemoveAtShifts(buckets[b], i, j);
        RemoveAtShifts(buckets[b], i, l);
        assert KeyApart(buckets[b], key, if j < i then j else j + 1, if l < i then l else l + 1);
      }
    }
    forall k' | k' in elems'
      ensures Filed(buckets', elems', key, hash, k')
    {
      assert Filed(buckets, elems, key, hash, k');
      var c := GetIndex(hash(k'), |buckets|);
      if c == b {
        var j :| 0 <= j < |buckets[b]| && buckets[b][j] == elems[k'];
        assert j != i;
        var j' := if j < i then j else j - 1;
        RemoveAtShifts(buckets[b], i, j');
      }
    }
  }

  /** The table invariant of `HashSet`: the buckets are hashed, and `size`
      counts both the stored elements and the bucket entries. */
  ghost predicate TableInvariant<T, K>(buckets: seq<seq<T>>, elems: map<K, T>, size: int, key: T -> K, hash: K -> int) {
    Hashed(buckets, elems, key, hash) && size == |elems| == |Flatten(buckets)|
  }

  /** `add` of an element with a new key keeps the table invariant, one
      larger. */
  lemma TableAdd<T, K>(buckets: seq<seq<T>>, elems: map<K, T>, size: int, key: T -> K, hash: K -> int, x: T)
    requires TableInvariant(buckets, elems, size, key, hash) && key(x) !in elems
    ensures var b := GetIndex(hash(key(x)), |buckets|);
            TableInvariant(buckets[b := buckets[b] + [x]], elems[key(x) := x], size + 1, key, hash)
  {
    var b := GetIndex(hash(key(x)), |buckets|);
    HashedAdd(buckets, elems, key, hash, x);
    FlattenUpdateLength(buckets, b, buckets[b] + [x]);
  }

  /** `remove` of the element at position `i` of the bucket of key `k`
      keeps the table invariant, one smaller. */
  lemma TableRemove<T, K>(buckets: seq<seq<T>>, elems: map<K, T>, size: int, key: T -> K, hash: K -> int, k: K, i: nat)
    requires TableInvariant(buckets, elems, size, key, hash)
    requires var b := GetIndex(hash(k), |buckets|); i < |buckets[b]| && key(buckets[b][i]) == k
    ensures k in elems
    ensures var b := GetIndex(hash(k), |buckets|);
            TableInvariant(buckets[b := RemoveAt(buckets[b], i)], elems - {k}, size - 1, key, hash)
  {
    var b := GetIndex(hash(k), |buckets|);
    HashedRemove(buckets, elems, key, hash, k, i);
    FlattenUpdateLength(buckets, b, RemoveAt(buckets[b], i));
    assert (elems - {k}).Keys == elems.Keys - {k};
  }

  /** No two elements of a sequence have the same key. */
  ghost predicate DistinctKeys<T, K>(s: seq<T>, key: T -> K) {
    forall i, j :: 0 <= i < j < |s| ==> key(s[i]) != key(s[j])
  }

  /** The first `n` buckets of a hashed table hold elements with distinct
      keys, all of which hash below `n`. */
  lemma {:induction false} FlattenDistinct<T, K>(buckets: seq<seq<T>>, elems: map<K, T>, key: T -> K, hash: K -> int, n: nat)
    requires Hashed(buckets, elems, key, hash) && n <= |buckets|
    ensures DistinctKeys(Flatten(buckets[..n]), key)
    ensures forall x :: x in Flatten(buckets[..n]) ==> GetIndex(hash(key(x)), |buckets|) < n
  {
    if n > 0 {
      FlattenDistinct(buckets, elems, key, hash, n - 1);
      FlattenPrefix(buckets, n - 1);
      var a, b := Flatten(buckets[..n - 1]), buckets[n - 1];
      assert Flatten(buckets[..n]) == a + b;
      forall i, j | 0 <= i < j < |a + b| ensures key((a + b)[i]) != key((a + b)[j]) {
        if i >= |a| {
          assert KeyApart(b, key, i - |a|, j - |a|);
        } else if j >= |a| {
          assert a[i] in a;
          assert Placed(buckets, elems, key, hash, n - 1, j - |a|);
        }
      }
      forall x | x in a + b ensures GetIndex(hash(key(x)), |buckets|) < n {
        if x !in a {
          var i :| 0 <= i < |b| && b[i] == x;
          assert Placed(buckets, elems, key, hash, n - 1, i);
        }
      }
    }
  }

  /** Iterating a hashed table visits each stored element exactly once: the
      flattened buckets hold exactly the stored elements, and no key twice. */
  lemma FlattenEnumerates<T, K>(buckets: seq<seq<T>>, elems: map<K, T>, key: T -> K, hash: K -> int)
    requires Hashed(buckets, elems, key, hash)
    ensures forall x :: x in Flatten(buckets) <==> x in elems.Values
    ensures DistinctKeys(Flatten(buckets), key)
  {
    assert buckets[..|buckets|] == buckets;
    FlattenDistinct(buckets, elems, key, hash, |buckets|);
    forall x ensures x in Flatten(buckets) <==> x in elems.Values {
      if x in Flatten(buckets) {
        var b, i := FlattenSource(buckets, x);
        assert Placed(buckets, elems, key, hash, b, i);
      }
      if x in elems.Values {
        var k :| k in elems && elems[k] == x;
        assert Filed(buckets, elems, key, hash, k);
        FlattenHas(buckets, GetIndex(hash(k), |buckets|), x);
      }
    }
  }

  /** The state of `hashTableReallocation` after re-adding the first `j`
      elements of bucket `i` of `buckets` (and all of the buckets before):
      `temp` is hashed and holds exactly the re-added elements, `done`, none
      of the elements still to come shares a key with them. */
  ghost predicate Rehashing<T, K>(buckets: seq<seq<T>>, elems: map<K, T>, key: T -> K, hash: K -> int,
                                  temp: seq<seq<T>>, done: map<K, T>, i: nat, j: nat)
  {
    && Hashed(buckets, elems, key, hash)
    && i <= |buckets| && (if i < |buckets| then j <= |buckets[i]| else j == 0)
    && Hashed(temp, done, key, hash)
    && |Flatten(temp)| == |done| == |Flatten(buckets[..i])| + j
    && (forall k :: k in done ==> k in elems && done[k] == elems[k])
    && (forall b, l :: i <= b < |buckets| && (if b == i then j else 0) <= l < |buckets[b]| ==> Pending(buckets, done, key, b, l))
  }

  /** The element at position `l` of bucket `b` is not re-added yet. */
  ghost predicate Pending<T, K>(buckets: seq<seq<T>>, done: map<K, T>, key: T -> K, b: int, l: int)
    requires 0 <= b < |buckets| && 0 <= l < |buckets[b]|
  {
    key(buckets[b][l]) !in done
  }

  lemma RehashStart<T, K>(buckets: seq<seq<T>>, elems: map<K, T>, key: T -> K, hash: K -> int, n: nat)
    requires Hashed(buckets, elems, key, hash) && n > 0
    ensures Rehashing(buckets, elems, key, hash, seq(n, _ => []), map[], 0, 0)
  {
    var temp: seq<seq<T>> := seq(n, _ => []);
    FlattenEmptyRange(temp, 0, n);
    assert temp[..n] == temp;
  }

  /** Re-adding element `j` of bucket `i` with `addObjInHashTable`. */
  lemma RehashStep<T, K>(buckets: seq<seq<T>>, elems: map<K, T>, key: T -> K, hash: K -> int,
                         temp: seq<seq<T>>, done: map<K, T>, i: nat, j: nat)
    requires Rehashing(buckets, elems, key, hash, temp, done, i, j)
    requires i < |buckets| && j < |buckets[i]|
    ensures var x := buckets[i][j];
            var b := GetIndex(hash(key(x)), |temp|);
            Rehashing(buckets, elems, key, hash, temp[b := temp[b] + [x]], done[key(x) := x], i, j + 1)
  {
    var x := buckets[i][j];
    var b := GetIndex(hash(key(x)), |temp|);
    var temp', done' := temp[b := temp[b] + [x]], done[key(x) := x];
    assert Placed(buckets, elems, key, hash, i, j);
    assert Pending(buckets, done, key, i, j);
    HashedAdd(temp, done, key, hash, x);
    FlattenUpdateLength(temp, b, temp[b] + [x]);
    forall c, l | i <= c < |buckets| && (if c == i then j + 1 else 0) <= l < |buckets[c]|
      ensures Pending(buckets, done', key, c, l)
    {
      assert Pending(buckets, done, key, c, l);
      if c == i {
        assert KeyApart(buckets[i], key, j, l);
      } else {
        assert Placed(buckets, elems, key, hash, c, l);
      }
    }
  }

  /** Moving on from a finished bucket to the next. */
  lemma RehashNext<T, K>(buckets: seq<seq<T>>, elems: map<K, T>, key: T -> K, hash: K -> int,
                         temp: seq<seq<T>>, done: map<K, T>, i: nat)
    requires i < |buckets| && Rehashing(buckets, elems, key, hash, temp, done, i, |buckets[i]|)
    ensures Rehashing(buckets, elems, key, hash, temp, done, i + 1, 0)
  {
    FlattenPrefix(buckets, i);
  }

  /** Once every bucket is re-added, `temp` holds exactly the elements of
      the original table. */
  lemma RehashDone<T, K>(buckets: seq<seq<T>>, elems: map<K, T>, key: T -> K, hash: K -> int,
                         temp: seq<seq<T>>, done: map<K, T>)
    requires Rehashing(buckets, elems, key, hash, temp, done, |buckets|, 0)
    requires |Flatten(buckets)| == |elems|
    ensures done == elems
    ensures TableInvariant(temp, elems, |elems|, key, hash)
  {
    assert buckets[..|buckets|] == buckets;
    assert done.Keys <= elems.Keys;
    assert elems.Keys == done.Keys + (elems.Keys - done.Keys);
    assert |elems.Keys - done.Keys| == 0;
    assert done.Keys == elems.Keys;
  }

  /** How many elements of `Flatten(t)` an iterator whose bucket iterator
      walks bucket `current` (none when negative) and stands at `currentPos`
      has returned. */
  ghost function Cursor<T>(t: seq<seq<T>>, current: int, currentPos: nat): nat
    requires current < |t|
  {
    if current >= 0 then |Flatten(t[..current])| + currentPos else |Flatten(t)|
  }

  /** A cursor inside a bucket never passes the end of the iteration. */
  lemma CursorBound<T>(t: seq<seq<T>>, current: int, currentPos: nat)
    requires current < |t| && (current >= 0 ==> currentPos <= |t[current]|)
    ensures Cursor(t, current, currentPos) <= |Flatten(t)|
  {
    if current >= 0 {
      FlattenPrefix(t, current);
      FlattenPrefixOf(t, current + 1);
    }
  }

  /** A bucket iterator that is exhausted (or null) stands where the buckets
      before `indexIterator` end. */
  lemma CursorAtBoundary<T>(t: seq<seq<T>>, current: int, currentPos: nat, indexIterator: nat)
    requires indexIterator <= |t| && current < |t|
    requires current < 0 ==> indexIterator == |t|
    requires current >= 0 ==> current == indexIterator - 1 && currentPos == |t[current]|
    ensures Cursor(t, current, currentPos) == |Flatten(t[..indexIterator])|
  {
    if current >= 0 {
      FlattenPrefix(t, current);
    } else {
      assert t[..indexIterator] == t;
    }
  }

  /** Skipping empty buckets from `before` to the next non-empty bucket `b`
      (or to the end when `b` is negative) does not move the cursor, and a
      cursor at the start of a non-empty bucket has an element ahead. */
  lemma CursorSkip<T>(t: seq<seq<T>>, before: nat, b: int)
    requires before <= |t| && b < |t|
    requires b >= 0 ==> before <= b && t[b] != []
    requires AllEmpty(t, before, if b >= 0 then b else |t|)
    ensures Cursor(t, b, 0) == |Flatten(t[..before])|
    ensures b >= 0 <==> Cursor(t, b, 0) < |Flatten(t)|
  {
    if b >= 0 {
      FlattenEmptyRange(t, before, b);
      FlattenAt(t, b, 0);
    } else {
      FlattenEmptyRange(t, before, |t|);
      assert t[..|t|] == t;
    }
  }

  class HashSet<T, K(==)> {
    const key: T -> K
    const hash: K -> int
    /** The load factor `factorNum / factorDen`. */
    const factorNum: nat
    const factorDen: nat

    var table: array<seq<T>>
    var size: nat
    /** The stored elements, by key. */
    ghost var Elems: map<K, T>

    ghost predicate Valid()
      reads this, table
    {
      && factorDen > 0
      && TableInvariant(table[..], Elems, size, key, hash)
    }

    /** The elements in iteration order. */
    ghost function Elements(): seq<T>
      reads this, table
    {
      Flatten(table[..])
    }

    /** Iteration order lists every stored element exactly once. */
    lemma ElementsEnumerate()
      requires Valid()
      ensures forall x :: x in Elements() <==> x in Elems.Values
      ensures DistinctKeys(Elements(), key) && |Elements()| == |Elems|
    {
      FlattenEnumerates(table[..], Elems, key, hash);
    }

    /** Each stored element is stored under its own key. */
    lemma StoredUnderKey()
      requires Valid()
      ensures forall k :: k in Elems ==> key(Elems[k]) == k
    {
      forall k | k in Elems
        ensures key(Elems[k]) == k
      {
        assert Filed(table[..], Elems, key, hash, k);
      }
    }

    /** `HashSet(hashTableLength, factor)`. */
    constructor (hashTableLength: nat, factorNum: nat, factorDen: nat, key: T -> K, hash: K -> int)
      requires hashTableLength > 0 && factorDen > 0
      ensures Valid() && fresh(table) && Elems == map[]
      ensures table.Length == hashTableLength
      ensures this.factorNum == factorNum && this.factorDen == factorDen
      ensures this.key == key && this.hash == hash
    {
      this.key, this.hash := key, hash;
      this.factorNum, this.factorDen := factorNum, factorDen;
      table := new seq<T>[hashTableLength](_ => []);
      size := 0;
      Elems := map[];
      new;
      HashedEmpty(hashTableLength, key, hash);
      assert table[..] == seq(hashTableLength, _ => []);
      assert |Flatten(table[..])| == 0 by {
        FlattenEmptyRange(table[..], 0, hashTableLength);
        assert table[..][..hashTableLength] == table[..];
      }
    }

    /** `HashSet()`: 16 buckets and load factor 0.75. */
    constructor Default(key: T -> K, hash: K -> int)
      ensures Valid() && fresh(table) && Elems == map[]
      ensures table.Length == DEFAULT_HASH_TABLE_LENGTH
      ensures factorNum == DEFAULT_FACTOR_NUM && factorDen == DEFAULT_FACTOR_DEN
      ensures this.key == key && this.hash == hash
    {
      this.key, this.hash := key, hash;
      factorNum, factorDen := DEFAULT_FACTOR_NUM, DEFAULT_FACTOR_DEN;
      table := new seq<T>[DEFAULT_HASH_TABLE_LENGTH](_ => []);
      size := 0;
      Elems := map[];
      new;
      HashedEmpty(DEFAULT_HASH_TABLE_LENGTH, key, hash);
      assert table[..] == seq(DEFAULT_HASH_TABLE_LENGTH, _ => []);
      assert |Flatten(table[..])| == 0 by {
        FlattenEmptyRange(table[..], 0, DEFAULT_HASH_TABLE_LENGTH);
        assert table[..][..DEFAULT_HASH_TABLE_LENGTH] == table[..];
      }
    }

    /** `addObjInHashTable`: appends `obj` to the bucket of its key in `t`,
        creating the bucket if it was null. */
    method AddObjInHashTable(obj: T, t: array<seq<T>>)
      requires t.Length > 0
      modifies t
      ensures var b := GetIndex(hash(key(obj)), t.Length);
              t[..] == old(t[..])[b := old(t[b]) + [obj]]
    {
      var index := GetIndex(hash(key(obj)), t.Length);
      t[index] := t[index] + [obj];
    }

    /** The bucket's `indexOf(pattern)`: a forward scan for the first element
        equal to the pattern. */
    method BucketIndexOf(bucket: seq<T>, pattern: T) returns (r: int)
      ensures -1 <= r < |bucket|
      ensures r >= 0 ==> key(bucket[r]) == key(pattern)
      ensures forall i :: 0 <= i < |bucket| && (r < 0 || i < r) ==> key(bucket[i]) != key(pattern)
    {
      var index := 0;
      while index < |bucket| && key(bucket[index]) != key(pattern)
        invariant 0 <= index <= |bucket|
        invariant forall i :: 0 <= i < index ==> key(bucket[i]) != key(pattern)
      {
        index := index + 1;
      }
      r := if index == |bucket| then -1 else index;
    }

    /** `contains(pattern)`: looks only in the pattern's bucket. */
    method Contains(pattern: T) returns (r: bool)
      requires Valid()
      ensures r <==> key(pattern) in Elems
    {
      var index := GetIndex(hash(key(pattern)), table.Length);
      var list := table[index];
      if key(pattern) in Elems {
        assert Filed(table[..], Elems, key, hash, key(pattern));
      }
      var i := BucketIndexOf(list, pattern);
      r := i >= 0;
      if r {
        assert Placed(table[..], Elems, key, hash, index, i);
      }
    }

    /** `getWithIterator`: walks the bucket until an element equal to the
        pattern turns up. */
    method GetWithIterator(pattern: T, list: seq<T>) returns (r: Option<T>)
      ensures r.Some? ==> r.value in list && key(r.value) == key(pattern)
      ensures r.None? ==> forall i :: 0 <= i < |list| ==> key(list[i]) != key(pattern)
    {
      r := None;
      var i := 0;
      while r.None? && i < |list|
        invariant 0 <= i <= |list|
        invariant r.Some? ==> r.value in list && key(r.value) == key(pattern)
        invariant r.None? ==> forall j :: 0 <= j < i ==> key(list[j]) != key(pattern)
      {
        var element := list[i];
        if key(element) == key(pattern) {
          r := Some(element);
        }
        i := i + 1;
      }
    }

    /** `get(pattern)`: the stored element equal to the pattern, or null. */
    method Get(pattern: T) returns (r: Option<T>)
      requires Valid()
      ensures key(pattern) in Elems ==> r == Some(Elems[key(pattern)])
      ensures key(pattern) !in Elems ==> r == None
    {
      var index := GetIndex(hash(key(pattern)), table.Length);
      var list := table[index];
      if key(pattern) in Elems {
        assert Filed(table[..], Elems, key, hash, key(pattern));
      }
      r := GetWithIterator(pattern, list);
      if r.Some? {
        ghost var i :| 0 <= i < |list| && list[i] == r.value;
        assert Placed(table[..], Elems, key, hash, index, i);
      }
    }

    /** `list.forEach(obj -> addObjInHashTable(obj, t))` for bucket `i` of
        the table being reallocated. */
    method AddAllInHashTable(list: seq<T>, t: array<seq<T>>, ghost buckets: seq<seq<T>>, ghost elems: map<K, T>,
                             ghost done: map<K, T>, ghost i: nat) returns (ghost done': map<K, T>)
      requires i < |buckets| && list == buckets[i]
      requires Rehashing(buckets, elems, key, hash, t[..], done, i, 0)
      modifies t
      ensures Rehashing(buckets, elems, key, hash, t[..], done', i + 1, 0)
    {
      done' := done;
      var j := 0;
      while j < |list|
        invariant 0 <= j <= |list|
        invariant Rehashing(buckets, elems, key, hash, t[..], done', i, j)
      {
        var x := list[j];
        RehashStep(buckets, elems, key, hash, t[..], done', i, j);
        AddObjInHashTable(x, t);
        done' := done'[key(x) := x];
        j := j + 1;
      }
      RehashNext(buckets, elems, key, hash, t[..], done', i);
    }

    /** The loop of `hashTableReallocation`: the elements of each bucket of
        `from`, in order, are re-added to `t`, and the bucket is cleared. */
    method RehashAll(from: array<seq<T>>, t: array<seq<T>>, ghost elems: map<K, T>) returns (ghost done: map<K, T>)
      requires from != t
      requires Rehashing(from[..], elems, key, hash, t[..], map[], 0, 0)
      modifies from, t
      ensures Rehashing(old(from[..]), elems, key, hash, t[..], done, from.Length, 0)
    {
      ghost var buckets := from[..];
      done := map[];
      var i := 0;
      while i < from.Length
        invariant 0 <= i <= from.Length == |buckets|
        invariant forall b :: i <= b < from.Length ==> from[b] == buckets[b]
        invariant Rehashing(buckets, elems, key, hash, t[..], done, i, 0)
      {
        var list := from[i];
        done := AddAllInHashTable(list, t, buckets, elems, done, i);
        from[i] := [];
        i := i + 1;
      }
    }

    /** `hashTableReallocation`: every element is re-added, bucket by bucket,
        to a table of twice the length; the old buckets are cleared. */
    method HashTableReallocation()
      requires Valid()
      modifies this, table
      ensures Valid() && fresh(table)
      ensures table.Length == 2 * old(table.Length)
      ensures Elems == old(Elems) && size == old(size)
    {
      var tempTable := new seq<T>[table.Length * 2](_ => []);
      ghost var buckets := table[..];
      RehashStart(buckets, Elems, key, hash, tempTable.Length);
      assert tempTable[..] == seq(tempTable.Length, _ => []);
      ghost var done := RehashAll(table, tempTable, Elems);
      RehashDone(buckets, Elems, key, hash, tempTable[..], done);
      table := tempTable;
    }

    /** `add(obj)`: does nothing and returns false when an equal element is
        stored; otherwise grows the table when `size >= length * factor`,
        stores `obj` in the bucket of its key and returns true. */
    method Add(obj: T) returns (r: bool)
      requires Valid()
      modifies this, table
      ensures Valid()
      ensures r <==> key(obj) !in old(Elems)
      ensures r ==> Elems == old(Elems)[key(obj) := obj]
      ensures !r ==> Elems == old(Elems) && table == old(table) && table[..] == old(table[..])
      ensures var grow := r && old(size) * factorDen >= old(table.Length) * factorNum;
              && (grow ==> fresh(table) && table.Length == 2 * old(table.Length))
              && (!grow ==> table == old(table))
    {
      r := false;
      var present := Contains(obj);
      if !present {
        r := true;
        if size * factorDen >= table.Length * factorNum {
          HashTableReallocation();
        }
        TableAdd(table[..], Elems, size, key, hash, obj);
        AddObjInHashTable(obj, table);
        size := size + 1;
        Elems := Elems[key(obj) := obj];
      }
    }

    /** `remove(pattern)`: when an equal element is stored, the bucket's
        `remove(pattern)` takes it out and `size` drops; returns whether it
        did. */
    method Remove(pattern: T) returns (r: bool)
      requires Valid()
      modifies this, table
      ensures Valid() && table == old(table)
      ensures r <==> key(pattern) in old(Elems)
      ensures Elems == old(Elems) - {key(pattern)}
    {
      r := false;
      var present := Contains(pattern);
      if present {
        var index := GetIndex(hash(key(pattern)), table.Length);
        var list := table[index];
        var i := BucketIndexOf(list, pattern);
        assert i >= 0 by {
          assert Filed(table[..], Elems, key, hash, key(pattern));
        }
        if i >= 0 {
          TableRemove(table[..], Elems, size, key, hash, key(pattern), i);
          StoreBucket(index, RemoveAt(list, i), size - 1, Elems - {key(pattern)});
          r := true;
        }
      }
    }

    /** Replaces bucket `index` and the element count together, in a state
        the table invariant already holds for. */
    method StoreBucket(index: nat, bucket: seq<T>, newSize: nat, ghost elems: map<K, T>)
      requires factorDen > 0 && index < table.Length
      requires TableInvariant(table[..][index := bucket], elems, newSize, key, hash)
      modifies this, table
      ensures Valid() && table == old(table)
      ensures Elems == elems && size == newSize
      ensures table[..] == old(table[..])[index := bucket]
    {
      table[index] := bucket;
      size := newSize;
      Elems := elems;
    }

    /** `size()`. */
    method Size() returns (r: nat)
      requires Valid()
      ensures r == |Elems|
    {
      r := size;
    }

    /** `isEmpty()`. */
    method IsEmpty() returns (r: bool)
      requires Valid()
      ensures r <==> Elems == map[]
    {
      r := size == 0;
    }

    /** `iterator()`. */
    method Iterator() returns (it: HashSetIterator<T, K>)
      requires Valid()
      ensures fresh(it) && it.Valid() && it.hashSet == this
      ensures it.Position() == 0 && !it.hasPrev
    {
      it := new HashSetIterator(this);
    }
  }

  /** `HashSetIterator`: the bucket iterators of the non-empty buckets, one
      after another. */
  class HashSetIterator<T, K(==)> {
    const hashSet: HashSet<T, K>
    /** The next bucket `getCurrentIterator` looks at. */
    var indexIterator: nat
    /** The bucket the current bucket iterator walks; -1 when it is null. */
    var current: int
    /** The cursor of the current bucket iterator. */
    var currentPos: nat
    /** Whether `prevIterator` is set. */
    var hasPrev: bool

    ghost predicate Valid()
      reads this, hashSet, hashSet.table
    {
      && indexIterator <= hashSet.table.Length
      && (current < 0 ==> indexIterator == hashSet.table.Length)
      && (current >= 0 ==> current == indexIterator - 1 && currentPos <= |hashSet.table[current]|)
    }

    /** How many elements of `hashSet.Elements()` have been returned. */
    ghost function Position(): (r: nat)
      requires Valid()
      reads this, hashSet, hashSet.table
      ensures r <= |hashSet.Elements()|
    {
      CursorBound(hashSet.table[..], current, currentPos);
      Cursor(hashSet.table[..], current, currentPos)
    }

    constructor (hashSet: HashSet<T, K>)
      ensures Valid() && this.hashSet == hashSet && Position() == 0 && !hasPrev
    {
      this.hashSet := hashSet;
      indexIterator := 0;
      currentPos := 0;
      hasPrev := false;
      current := -1;
      new;
      current := GetCurrentIterator();
      ghost var t := hashSet.table[..];
      if current >= 0 {
        FlattenEmptyRange(t, 0, current);
      } else {
        FlattenEmptyRange(t, 0, |t|);
        assert t[..|t|] == t;
      }
    }

    /** `getCurrentIterator`: moves `indexIterator` past empty buckets and
        one non-empty bucket, whose index it returns; -1 when none is left. */
    method GetCurrentIterator() returns (b: int)
      requires indexIterator <= hashSet.table.Length
      modifies this`indexIterator
      ensures old(indexIterator) <= indexIterator <= hashSet.table.Length
      ensures b >= 0 ==> old(indexIterator) <= b == indexIterator - 1 && old(hashSet.table[..])[b] != []
      ensures b < 0 ==> b == -1 && indexIterator == hashSet.table.Length
      ensures AllEmpty(old(hashSet.table[..]), old(indexIterator), if b >= 0 then b else hashSet.table.Length)
    {
      b := -1;
      while indexIterator < hashSet.table.Length && b < 0
        invariant old(indexIterator) <= indexIterator <= hashSet.table.Length
        invariant b >= 0 ==> old(indexIterator) <= b == indexIterator - 1 && old(hashSet.table[..])[b] != []
        invariant b < 0 ==> b == -1
        invariant AllEmpty(old(hashSet.table[..]), old(indexIterator), if b >= 0 then b else indexIterator)
      {
        var bucket := hashSet.table[indexIterator];
        indexIterator := indexIterator + 1;
        if bucket != [] {
          b := indexIterator - 1;
        }
      }
    }

    /** `hasNext()`: the current bucket iterator has more, or
        `getCurrentIterator` finds a non-empty bucket. */
    method HasNext() returns (r: bool)
      requires Valid()
      modifies this`indexIterator, this`current, this`currentPos
      ensures Valid() && Position() == old(Position()) && hasPrev == old(hasPrev)
      ensures r <==> Position() < |hashSet.Elements()|
      ensures r ==> current >= 0 && currentPos < |hashSet.table[current]|
    {
      ghost var t := hashSet.table[..];
      if current >= 0 && currentPos < |hashSet.table[current]| {
        FlattenAt(t, current, currentPos);
        return true;
      }
      ghost var before := indexIterator;
      CursorAtBoundary(t, current, currentPos, before);
      current := GetCurrentIterator();
      currentPos := 0;
      CursorSkip(t, before, current);
      r := current >= 0 && currentPos < |hashSet.table[current]|;
    }

    /** `next()`: the next element of the current bucket iterator, which
        becomes `prevIterator`; at the end, NoSuchElement. */
    method Next() returns (r: Result<T>)
      requires Valid()
      modifies this
      ensures Valid()
      ensures old(Position()) < |hashSet.Elements()| ==>
                r == Ok(hashSet.Elements()[old(Position())]) && Position() == old(Position()) + 1 && hasPrev
      ensures old(Position()) >= |hashSet.Elements()| ==>
                r == Err(NoSuchElement) && Position() == old(Position()) && hasPrev == old(hasPrev)
    {
      var more := HasNext();
      if !more {
        return Err(NoSuchElement);
      }
      FlattenAt(hashSet.table[..], current, currentPos);
      hasPrev := true;
      r := Ok(hashSet.table[current][currentPos]);
      currentPos := currentPos + 1;
    }

    /** `remove()`: IllegalState before any `next`; otherwise the bucket
        iterator's `remove`, which ArrayList does not provide, throws
        UnsupportedOperation before `size` is touched. */
    method Remove() returns (r: Result<()>)
      requires Valid()
      ensures !hasPrev ==> r == Err(IllegalState)
      ensures hasPrev ==> r == Err(UnsupportedOperation)
    {
      if !hasPrev {
        return Err(IllegalState);
      }
      r := Err(UnsupportedOperation);
    }
  }
}
