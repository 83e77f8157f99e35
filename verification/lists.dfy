/** The `List` interface: the position checks and the default methods
    `remove(pattern)` and `contains`, stated over the sequence of elements a
    list holds. Both list implementations are proved against these. */
module Lists {
  import opened Outcomes

  /** `r` is what `indexOf(p)` must return for a list holding `s`: the first
      position of an element equal to `p`, or -1 when there is none. */
  ghost predicate IsFirstIndex<T>(s: seq<T>, p: T, r: int) {
    if p in s then 0 <= r < |s| && s[r] == p && p !in s[..r] else r == -1
  }

  /** `r` is what `lastIndexOf(p)` must return: the last position of an
      element equal to `p`, or -1. */
  ghost predicate IsLastIndex<T>(s: seq<T>, p: T, r: int) {
    if p in s then 0 <= r < |s| && s[r] == p && p !in s[r + 1..] else r == -1
  }

  /** The position `indexOf(p)` returns, computed by recursion on the list. */
  function FirstIndexOf<T(==)>(s: seq<T>, p: T): (r: int)
    ensures IsFirstIndex(s, p, r)
  {
    if |s| == 0 then -1
    else if s[0] == p then 0
    else
      var k := FirstIndexOf(s[1..], p);
      assert s == [s[0]] + s[1..];
      if k < 0 then -1
      else
        assert s[..k + 1] == [s[0]] + s[1..][..k];
        k + 1
  }

  /** There is only one first position: every scan meeting `IsFirstIndex`
      agrees with `FirstIndexOf`. */
  lemma FirstIndexDetermined<T>(s: seq<T>, p: T, r: int)
    requires IsFirstIndex(s, p, r)
    ensures r == FirstIndexOf(s, p)
  {
  }

  /** `checkIndex(index, sizeInclusive)` of `List`: passes exactly for the
      positions of existing elements, or, when `sizeInclusive`, for the
      positions at which an element may be inserted. */
  function CheckIndex(index: int, size: int, sizeInclusive: bool): (r: Result<()>)
    ensures sizeInclusive ==> (r.Ok? <==> 0 <= index <= size)
    ensures !sizeInclusive ==> (r.Ok? <==> 0 <= index < size)
    ensures r.Err? ==> r.error == IndexOutOfBounds
  {
    var limit := if sizeInclusive then size else size - 1;
    if index < 0 || index > limit then Err(IndexOutOfBounds) else Ok(())
  }

  /** The list after `add(index, x)`. */
  function InsertAt<T>(s: seq<T>, index: nat, x: T): seq<T>
    requires index <= |s|
  {
    s[..index] + [x] + s[index..]
  }

  /** The list after `remove(index)`. */
  function RemoveAt<T>(s: seq<T>, index: nat): seq<T>
    requires index < |s|
  {
    s[..index] + s[index + 1..]
  }

  /** The list after the default `remove(pattern)`: the first element equal
      to `p` is removed, if there is one. */
  function RemoveFirst<T(==)>(s: seq<T>, p: T): seq<T> {
    var i := FirstIndexOf(s, p);
    if i >= 0 then RemoveAt(s, i) else s
  }

  /** Inserting at a position and then removing at that position gives the
      list back, and the inserted element is found at that position. */
  lemma InsertRemoveRoundTrip<T>(s: seq<T>, index: nat, x: T)
    requires index <= |s|
    ensures |InsertAt(s, index, x)| == |s| + 1
    ensures InsertAt(s, index, x)[index] == x
    ensures RemoveAt(InsertAt(s, index, x), index) == s
  {
    var t := InsertAt(s, index, x);
    assert t[..index] == s[..index];
    assert t[index + 1..] == s[index..];
  }

  /** Inserting adds exactly one occurrence of `x` to the elements. */
  lemma InsertAtElements<T>(s: seq<T>, index: nat, x: T)
    requires index <= |s|
    ensures multiset(InsertAt(s, index, x)) == multiset(s) + multiset{x}
  {
    assert s == s[..index] + s[index..];
  }

  /** Removing takes exactly the element at `index` out of the elements. */
  lemma RemoveAtElements<T>(s: seq<T>, index: nat)
    requires index < |s|
    ensures multiset(RemoveAt(s, index)) == multiset(s) - multiset{s[index]}
  {
    assert s == s[..index] + [s[index]] + s[index + 1..];
  }

  /** Inserting at a position keeps every other element in order: the ones
      before stay put, the ones after move up by one. */
  lemma InsertAtShifts<T>(s: seq<T>, index: nat, x: T, j: nat)
    requires index <= |s| && j <= |s|
    ensures |InsertAt(s, index, x)| == |s| + 1
    ensures InsertAt(s, index, x)[j] == if j < index then s[j] else if j == index then x else s[j - 1]
  {
  }

  /** Removing at a position keeps every other element in order: the ones
      before stay put, the ones after move down by one. */
  lemma RemoveAtShifts<T>(s: seq<T>, index: nat, j: nat)
    requires index < |s| && j < |s| - 1
    ensures |RemoveAt(s, index)| == |s| - 1
    ensures RemoveAt(s, index)[j] == if j < index then s[j] else s[j + 1]
  {
  }

  /** The default `remove(pattern)` removes exactly one occurrence of the
      pattern when the pattern is present, and changes nothing otherwise;
      `contains` agrees with `indexOf`. */
  lemma {:induction false} RemoveFirstCount<T>(s: seq<T>, p: T)
    ensures p in s <==> FirstIndexOf(s, p) >= 0
    ensures p in s ==> multiset(RemoveFirst(s, p)) == multiset(s) - multiset{p}
    ensures p !in s ==> RemoveFirst(s, p) == s
  {
    var i := FirstIndexOf(s, p);
    if i >= 0 {
      assert s == s[..i] + [s[i]] + s[i + 1..];
      calc {
        multiset(s);
        multiset(s[..i]) + multiset{p} + multiset(s[i + 1..]);
        multiset(RemoveAt(s, i)) + multiset{p};
      }
    }
  }
}
