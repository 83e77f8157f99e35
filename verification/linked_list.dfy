/** `LinkedList`: a doubly linked list with head and tail pointers. The nodes
    live in an arena `cells` addressed by stable ids; a pointer is `Null` or
    the id of a cell. The ghost `Order` lists the ids from head to tail. */
module LinkedLists {
  import opened Outcomes
  import opened Lists

  datatype Ptr = Null | Ref(id: nat)

  /** A node: its element and its `next` and `prev` links. */
  datatype Cell<T> = Cell(obj: T, next: Ptr, prev: Ptr)

  /** The link a node at position `i` of `order` must hold to its successor. */
  function NextOf(order: seq<nat>, i: nat): Ptr
    requires i < |order|
  {
    if i + 1 < |order| then Ref(order[i + 1]) else Null
  }

  /** The link a node at position `i` of `order` must hold to its predecessor. */
  function PrevOf(order: seq<nat>, i: nat): Ptr
    requires i < |order|
  {
    if i > 0 then Ref(order[i - 1]) else Null
  }

  /** The ids at positions `i` and `j` differ. */
  ghost predicate Apart(order: seq<nat>, i: int, j: int)
    requires 0 <= i < |order| && 0 <= j < |order|
  {
    order[i] != order[j]
  }

  /** The node at position `i` of `order` holds `contents[i]` and links to its
      neighbours in `order`. */
  ghost predicate CellAt<T>(cells: map<nat, Cell<T>>, order: seq<nat>, contents: seq<T>, i: int)
    requires 0 <= i < |order| == |contents|
  {
    order[i] in cells && cells[order[i]] == Cell(contents[i], NextOf(order, i), PrevOf(order, i))
  }

  /** `cells` holds a doubly linked chain visiting the distinct ids of
      `order`, whose nodes hold the elements of `contents`. */
  ghost predicate Chain<T>(cells: map<nat, Cell<T>>, order: seq<nat>, contents: seq<T>) {
    && |order| == |contents|
    && (forall i, j :: 0 <= i < j < |order| ==> Apart(order, i, j))
    && (forall i :: 0 <= i < |order| ==> CellAt(cells, order, contents, i))
  }

  /** The ids of a chain are pairwise distinct. */
  lemma ChainDistinct<T>(cells: map<nat, Cell<T>>, order: seq<nat>, contents: seq<T>, i: int, j: int)
    requires Chain(cells, order, contents) && 0 <= i < |order| && 0 <= j < |order| && i != j
    ensures order[i] != order[j]
  {
    if i < j {
      assert Apart(order, i, j);
    } else {
      assert Apart(order, j, i);
    }
  }

  /** The head pointer of a chain visiting `order`. */
  function First(order: seq<nat>): Ptr {
    if |order| == 0 then Null else Ref(order[0])
  }

  /** The tail pointer of a chain visiting `order`. */
  function Last(order: seq<nat>): Ptr {
    if |order| == 0 then Null else Ref(order[|order| - 1])
  }

  /** Ids drawn from a bounded sequence stay bounded. */
  lemma BoundedIds(order: seq<nat>, sub: seq<nat>, n: nat)
    requires forall id :: id in order ==> id < n
    requires multiset(sub) <= multiset(order)
    ensures forall id :: id in sub ==> id < n
  {
    forall id | id in sub ensures id < n {
      assert id in multiset(sub);
      assert id in multiset(order);
      assert id in order;
    }
  }

  /** Adding a cell under an id the chain does not visit leaves the chain. */
  lemma ChainAddCell<T>(cells: map<nat, Cell<T>>, order: seq<nat>, contents: seq<T>, id: nat, c: Cell<T>)
    requires Chain(cells, order, contents) && id !in order
    ensures Chain(cells[id := c], order, contents)
  {
    var cells' := cells[id := c];
    forall i | 0 <= i < |order| ensures CellAt(cells', order, contents, i) {
      assert CellAt(cells, order, contents, i);
      assert order[i] in order;
    }
  }

  /** `addHead` on an empty chain. */
  lemma ChainSingleton<T>(cells: map<nat, Cell<T>>, id: nat, x: T)
    requires id in cells && cells[id] == Cell(x, Null, Null)
    ensures Chain(cells, [id], [x])
  {
    assert CellAt(cells, [id], [x], 0);
  }

  /** `addHead` on a non-empty chain: the new node points at the old head,
      which points back at it. */
  lemma ChainPushFront<T>(cells: map<nat, Cell<T>>, order: seq<nat>, contents: seq<T>, id: nat, x: T)
    requires Chain(cells, order, contents) && |order| > 0 && id !in order
    requires id in cells && cells[id] == Cell(x, Null, Null)
    ensures order[0] in cells
    ensures Chain(cells[id := cells[id].(next := Ref(order[0]))][order[0] := cells[order[0]].(prev := Ref(id))],
                  [id] + order, [x] + contents)
  {
    assert CellAt(cells, order, contents, 0);
    var cells' := cells[id := cells[id].(next := Ref(order[0]))][order[0] := cells[order[0]].(prev := Ref(id))];
    var order', contents' := [id] + order, [x] + contents;
    forall i | 0 <= i < |order'| ensures CellAt(cells', order', contents', i) {
      if i > 0 {
        assert CellAt(cells, order, contents, i - 1);
        assert order'[i] == order[i - 1];
        assert order[i - 1] != id by { assert order[i - 1] in order; }
        if i > 1 {
          ChainDistinct(cells, order, contents, i - 1, 0);
        }
      }
    }
    forall i, j | 0 <= i < j < |order'| ensures Apart(order', i, j) {
      if i == 0 {
        assert order[j - 1] in order;
      } else {
        ChainDistinct(cells, order, contents, i - 1, j - 1);
      }
    }
  }

  /** `addTail`: the old tail points at the new node, which points back. */
  lemma ChainPushBack<T>(cells: map<nat, Cell<T>>, order: seq<nat>, contents: seq<T>, id: nat, x: T)
    requires Chain(cells, order, contents) && |order| > 0 && id !in order
    requires id in cells && cells[id] == Cell(x, Null, Null)
    ensures order[|order| - 1] in cells
    ensures var t := order[|order| - 1];
            Chain(cells[t := cells[t].(next := Ref(id))][id := cells[id].(prev := Ref(t))], order + [id], contents + [x])
  {
    var n := |order|;
    var t := order[n - 1];
    assert CellAt(cells, order, contents, n - 1);
    var cells' := cells[t := cells[t].(next := Ref(id))][id := cells[id].(prev := Ref(t))];
    var order', contents' := order + [id], contents + [x];
    forall i | 0 <= i < |order'| ensures CellAt(cells', order', contents', i) {
      if i < n {
        assert CellAt(cells, order, contents, i);
        assert order'[i] == order[i];
        assert order[i] != id by { assert order[i] in order; }
        if i < n - 1 {
          ChainDistinct(cells, order, contents, i, n - 1);
          assert NextOf(order', i) == NextOf(order, i);
        }
      }
    }
    forall i, j | 0 <= i < j < |order'| ensures Apart(order', i, j) {
      if j == n {
        assert order[i] in order;
      } else {
        ChainDistinct(cells, order, contents, i, j);
      }
    }
  }

  /** `addMiddle`: the new node goes between positions `index - 1` and
      `index`, and both neighbours point at it. */
  lemma ChainInsert<T>(cells: map<nat, Cell<T>>, order: seq<nat>, contents: seq<T>, index: nat, id: nat, x: T)
    requires Chain(cells, order, contents) && 0 < index < |order| && id !in order
    requires id in cells && cells[id] == Cell(x, Null, Null)
    ensures order[index - 1] in cells && order[index] in cells
    ensures var before, after := order[index - 1], order[index];
            Chain(cells[id := cells[id].(next := Ref(after), prev := Ref(before))]
                       [after := cells[after].(prev := Ref(id))]
                       [before := cells[before].(next := Ref(id))],
                  InsertAt(order, index, id), InsertAt(contents, index, x))
  {
    var before, after := order[index - 1], order[index];
    assert CellAt(cells, order, contents, index - 1) && CellAt(cells, order, contents, index);
    var cells' := cells[id := cells[id].(next := Ref(after), prev := Ref(before))][after := cells[after].(prev := Ref(id))][before := cells[before].(next := Ref(id))];
    var order', contents' := InsertAt(order, index, id), InsertAt(contents, index, x);
    assert before != after by { ChainDistinct(cells, order, contents, index - 1, index); }
    assert before != id && after != id by { assert before in order && after in order; }
    forall i | 0 <= i < |order'| ensures CellAt(cells', order', contents', i) {
      InsertAtShifts(order, index, id, i);
      InsertAtShifts(contents, index, x, i);
      if i + 1 < |order'| {
        InsertAtShifts(order, index, id, i + 1);
      }
      if i > 0 {
        InsertAtShifts(order, index, id, i - 1);
      }
      if i < index {
        assert CellAt(cells, order, contents, i);
        assert order[i] != id by { assert order[i] in order; }
        if i < index - 1 {
          ChainDistinct(cells, order, contents, i, index - 1);
          ChainDistinct(cells, order, contents, i, index);
        }
      } else if i > index {
        assert CellAt(cells, order, contents, i - 1);
        assert order[i - 1] != id by { assert order[i - 1] in order; }
        if i > index + 1 {
          ChainDistinct(cells, order, contents, i - 1, index - 1);
          ChainDistinct(cells, order, contents, i - 1, index);
        }
      }
    }
    forall i, j | 0 <= i < j < |order'| ensures Apart(order', i, j) {
      InsertAtShifts(order, index, id, i);
      InsertAtShifts(order, index, id, j);
      if i == index {
        assert order[j - 1] in order;
      } else if j == index {
        assert order[i] in order;
      } else {
        ChainDistinct(cells, order, contents, if i < index then i else i - 1, if j < index then j else j - 1);
      }
    }
  }

  /** `removeHead`: the second node loses its back link. */
  lemma ChainPopFront<T>(cells: map<nat, Cell<T>>, order: seq<nat>, contents: seq<T>)
    requires Chain(cells, order, contents) && |order| > 1
    ensures order[1] in cells
    ensures Chain((cells[order[1] := cells[order[1]].(prev := Null)]) - {order[0]}, order[1..], contents[1..])
  {
    assert CellAt(cells, order, contents, 1);
    var cells' := (cells[order[1] := cells[order[1]].(prev := Null)]) - {order[0]};
    var order', contents' := order[1..], contents[1..];
    forall i | 0 <= i < |order'| ensures CellAt(cells', order', contents', i) {
      assert CellAt(cells, order, contents, i + 1);
      ChainDistinct(cells, order, contents, i + 1, 0);
      if i > 0 {
        ChainDistinct(cells, order, contents, i + 1, 1);
      }
    }
    forall i, j | 0 <= i < j < |order'| ensures Apart(order', i, j) {
      ChainDistinct(cells, order, contents, i + 1, j + 1);
    }
  }

  /** `removeTail`, corrected: the new tail loses its forward link. */
  lemma ChainPopBack<T>(cells: map<nat, Cell<T>>, order: seq<nat>, contents: seq<T>)
    requires Chain(cells, order, contents) && |order| > 1
    ensures order[|order| - 2] in cells
    ensures var n := |order|;
            Chain((cells[order[n - 2] := cells[order[n - 2]].(next := Null)]) - {order[n - 1]}, order[..n - 1], contents[..n - 1])
  {
    var n := |order|;
    assert CellAt(cells, order, contents, n - 2);
    var cells' := (cells[order[n - 2] := cells[order[n - 2]].(next := Null)]) - {order[n - 1]};
    var order', contents' := order[..n - 1], contents[..n - 1];
    forall i | 0 <= i < |order'| ensures CellAt(cells', order', contents', i) {
      assert CellAt(cells, order, contents, i);
      ChainDistinct(cells, order, contents, i, n - 1);
      if i < n - 2 {
        ChainDistinct(cells, order, contents, i, n - 2);
      }
    }
    forall i, j | 0 <= i < j < |order'| ensures Apart(order', i, j) {
      ChainDistinct(cells, order, contents, i, j);
    }
  }

  /** `removeMiddle`: the neighbours of position `index` are joined. */
  lemma ChainUnlink<T>(cells: map<nat, Cell<T>>, order: seq<nat>, contents: seq<T>, index: nat)
    requires Chain(cells, order, contents) && 0 < index < |order| - 1
    ensures order[index - 1] in cells && order[index + 1] in cells
    ensures var before, after := order[index - 1], order[index + 1];
            Chain((cells[before := cells[before].(next := Ref(after))][after := cells[after].(prev := Ref(before))]) - {order[index]},
                  RemoveAt(order, index), RemoveAt(contents, index))
  {
    var before, after, gone := order[index - 1], order[index + 1], order[index];
    assert CellAt(cells, order, contents, index - 1) && CellAt(cells, order, contents, index + 1);
    var cells' := (cells[before := cells[before].(next := Ref(after))][after := cells[after].(prev := Ref(before))]) - {gone};
    var order', contents' := RemoveAt(order, index), RemoveAt(contents, index);
    ChainDistinct(cells, order, contents, index - 1, index + 1);
    forall i | 0 <= i < |order'| ensures CellAt(cells', order', contents', i) {
      RemoveAtShifts(order, index, i);
      RemoveAtShifts(contents, index, i);
      if i + 1 < |order'| {
        RemoveAtShifts(order, index, i + 1);
      }
      if i > 0 {
        RemoveAtShifts(order, index, i - 1);
      }
      var k := if i < index then i else i + 1;
      assert CellAt(cells, order, contents, k);
      ChainDistinct(cells, order, contents, k, index);
      if k != index - 1 {
        ChainDistinct(cells, order, contents, k, index - 1);
      }
      if k != index + 1 {
        ChainDistinct(cells, order, contents, k, index + 1);
      }
    }
    forall i, j | 0 <= i < j < |order'| ensures Apart(order', i, j) {
      RemoveAtShifts(order, index, i);
      RemoveAtShifts(order, index, j);
      ChainDistinct(cells, order, contents, if i < index then i else i + 1, if j < index then j else j + 1);
    }
  }

  class LinkedList<T(==)> {
    /** The ids of the nodes, from head to tail. */
    ghost var Order: seq<nat>
    /** The elements, from head to tail. */
    ghost var Contents: seq<T>

    var cells: map<nat, Cell<T>>
    var head: Ptr
    var tail: Ptr
    var size: nat
    /** The next unused id: every node ever created has a smaller one. */
    var nextId: nat

    /** The arena holds a doubly linked chain that visits the ids of `order`
        and holds the elements of `contents`. */
    ghost predicate Linked(order: seq<nat>, contents: seq<T>)
      reads this
    {
      && Chain(cells, order, contents)
      && head == First(order) && tail == Last(order)
      && (forall id :: id in order ==> id < nextId)
    }

    ghost predicate Valid()
      reads this
    {
      Linked(Order, Contents) && size == |Order|
    }

    constructor ()
      ensures Valid() && Contents == []
    {
      cells := map[];
      head, tail := Null, Null;
      size, nextId := 0, 0;
      Order, Contents := [], [];
    }

    /** `getNodeFromHead`: follows `next` links `index` times from the head. */
    method GetNodeFromHead(index: nat) returns (p: Ptr)
      requires Valid() && index < size
      ensures p == Ref(Order[index])
    {
      p := head;
      var i := 0;
      while i < index
        invariant 0 <= i <= index
        invariant p == Ref(Order[i])
      {
        assert CellAt(cells, Order, Contents, i);
        p := cells[p.id].next;
        i := i + 1;
      }
    }

    /** `getNodeFromTail`: follows `prev` links from the tail down to `index`. */
    method GetNodeFromTail(index: nat) returns (p: Ptr)
      requires Valid() && index < size
      ensures p == Ref(Order[index])
    {
      p := tail;
      var i := size - 1;
      while i > index
        invariant index <= i < size
        invariant p == Ref(Order[i])
      {
        assert CellAt(cells, Order, Contents, i);
        p := cells[p.id].prev;
        i := i - 1;
      }
    }

    /** `getNode`: walks from whichever end is nearer; both walks reach the
        node at position `index`. */
    method GetNode(index: nat) returns (p: Ptr)
      requires Valid() && index < size
      ensures p == Ref(Order[index])
    {
      if index < size / 2 {
        p := GetNodeFromHead(index);
      } else {
        p := GetNodeFromTail(index);
      }
    }

    /** `addHead`: links the new node `id` in front of the head. */
    method AddHead(id: nat)
      requires Linked(Order, Contents)
      requires id in cells && id < nextId && id !in Order
      requires cells[id].next == Null && cells[id].prev == Null
      modifies this
      ensures Linked(Order, Contents) && size == old(size) && nextId == old(nextId)
      ensures Order == [id] + old(Order) && Contents == [old(cells)[id].obj] + old(Contents)
    {
      ghost var x := cells[id].obj;
      if head == Null {
        ChainSingleton(cells, id, x);
        head, tail := Ref(id), Ref(id);
      } else {
        ChainPushFront(cells, Order, Contents, id, x);
        var h := head.id;
        cells := cells[id := cells[id].(next := head)][h := cells[h].(prev := Ref(id))];
        head := Ref(id);
      }
      Order, Contents := [id] + Order, [x] + Contents;
    }

    /** `addTail`: links the new node `id` after the tail of a non-empty
        list. */
    method AddTail(id: nat)
      requires Linked(Order, Contents) && |Order| > 0
      requires id in cells && id < nextId && id !in Order
      requires cells[id].next == Null && cells[id].prev == Null
      modifies this
      ensures Linked(Order, Contents) && size == old(size) && nextId == old(nextId)
      ensures Order == old(Order) + [id] && Contents == old(Contents) + [old(cells)[id].obj]
    {
      ghost var x := cells[id].obj;
      ChainPushBack(cells, Order, Contents, id, x);
      var t := tail.id;
      cells := cells[t := cells[t].(next := Ref(id))][id := cells[id].(prev := tail)];
      tail := Ref(id);
      Order, Contents := Order + [id], Contents + [x];
    }

    /** `addMiddle`: links the new node `id` in front of the node now at
        position `index`, between it and its predecessor. */
    method AddMiddle(id: nat, index: nat)
      requires Valid() && 0 < index < size
      requires id in cells && id < nextId && id !in Order
      requires cells[id].next == Null && cells[id].prev == Null
      modifies this
      ensures Linked(Order, Contents) && size == old(size) && nextId == old(nextId)
      ensures Order == InsertAt(old(Order), index, id)
      ensures Contents == InsertAt(old(Contents), index, old(cells)[id].obj)
    {
      ghost var x := cells[id].obj;
      ChainInsert(cells, Order, Contents, index, id, x);
      var nodeBefore := GetNode(index);
      assert CellAt(cells, Order, Contents, index);
      var nodeAfter := cells[nodeBefore.id].prev;
      cells := cells[id := cells[id].(next := nodeBefore, prev := nodeAfter)]
                    [nodeBefore.id := cells[nodeBefore.id].(prev := Ref(id))]
                    [nodeAfter.id := cells[nodeAfter.id].(next := Ref(id))];
      InsertAtElements(Order, index, id);
      forall y | y in InsertAt(Order, index, id) ensures y < nextId {
        assert y in multiset(InsertAt(Order, index, id));
        assert y == id || y in multiset(Order);
        assert y == id || y in Order;
      }
      Order, Contents := InsertAt(Order, index, id), InsertAt(Contents, index, x);
    }

    /** `addNode`: creates a node for `obj` and links it in at position
        `index`, at the head, the tail or in the middle. */
    method AddNode(obj: T, index: nat)
      requires Valid() && index <= size
      modifies this
      ensures Valid() && Contents == InsertAt(old(Contents), index, obj)
    {
      var id := nextId;
      assert id !in Order;
      ChainAddCell(cells, Order, Contents, id, Cell(obj, Null, Null));
      nextId := nextId + 1;
      cells := cells[id := Cell(obj, Null, Null)];
      if index == 0 {
        AddHead(id);
      } else if index == size {
        AddTail(id);
      } else {
        AddMiddle(id, index);
      }
      size := size + 1;
    }

    /** `add(obj)`: appends at the tail; always returns true. */
    method Add(obj: T) returns (r: bool)
      requires Valid()
      modifies this
      ensures Valid() && r
      ensures Contents == old(Contents) + [obj]
    {
      AddNode(obj, size);
      r := true;
    }

    /** `add(index, obj)`: IndexOutOfBounds unless `0 <= index <= size`;
        otherwise `obj` ends up at position `index`. */
    method Insert(index: int, obj: T) returns (r: Result<()>)
      requires Valid()
      modifies this
      ensures Valid()
      ensures r == CheckIndex(index, old(size), true)
      ensures r.Ok? ==> Contents == InsertAt(old(Contents), index, obj)
      ensures r.Err? ==> Contents == old(Contents)
    {
      r := CheckIndex(index, size, true);
      if r.Ok? {
        AddNode(obj, index);
      }
    }

    /** `removeHead`: unlinks the head node of a non-empty list; an emptied
        list has neither head nor tail. */
    method RemoveHead() returns (removed: T)
      requires Valid() && size > 0
      modifies this
      ensures Linked(Order, Contents) && size == old(size) && nextId == old(nextId)
      ensures removed == old(Contents)[0]
      ensures Order == old(Order)[1..] && Contents == old(Contents)[1..]
      ensures old(size) == 1 ==> head == Null && tail == Null
    {
      var h := head.id;
      assert CellAt(cells, Order, Contents, 0);
      removed := cells[h].obj;
      head := cells[h].next;
      if head == Null {
        tail := Null;
      } else {
        ChainPopFront(cells, Order, Contents);
        cells := cells[head.id := cells[head.id].(prev := Null)];
      }
      cells := cells - {h};
      assert Order[1..] == RemoveAt(Order, 0);
      RemoveAtElements(Order, 0);
      BoundedIds(Order, Order[1..], nextId);
      Order, Contents := Order[1..], Contents[1..];
    }

    /** `removeTail`, corrected: unlinks the tail node of a list of two or
        more and clears the new tail's `next` link. */
    method RemoveTail() returns (removed: T)
      requires Valid() && size > 1
      modifies this
      ensures Linked(Order, Contents) && size == old(size) && nextId == old(nextId)
      ensures removed == old(Contents)[|old(Contents)| - 1]
      ensures Order == old(Order)[..|old(Order)| - 1] && Contents == old(Contents)[..|old(Contents)| - 1]
    {
      ChainPopBack(cells, Order, Contents);
      var t := tail.id;
      assert CellAt(cells, Order, Contents, size - 1);
      removed := cells[t].obj;
      tail := cells[t].prev;
      cells := (cells[tail.id := cells[tail.id].(next := Null)]) - {t};
      assert Order[..|Order| - 1] == RemoveAt(Order, |Order| - 1);
      RemoveAtElements(Order, |Order| - 1);
      BoundedIds(Order, Order[..|Order| - 1], nextId);
      Order, Contents := Order[..|Order| - 1], Contents[..|Contents| - 1];
    }

    /** `removeMiddle`: unlinks the node at a position with a node on either
        side of it and joins those two neighbours. */
    method RemoveMiddle(index: nat) returns (removed: T)
      requires Valid() && 0 < index < size - 1
      modifies this
      ensures Linked(Order, Contents) && size == old(size) && nextId == old(nextId)
      ensures removed == old(Contents)[index]
      ensures Order == RemoveAt(old(Order), index) && Contents == RemoveAt(old(Contents), index)
    {
      ChainUnlink(cells, Order, Contents, index);
      var removedNode := GetNode(index);
      assert CellAt(cells, Order, Contents, index);
      var nodeBefore := cells[removedNode.id].prev;
      var nodeAfter := cells[removedNode.id].next;
      assert nodeBefore == Ref(Order[index - 1]) && nodeAfter == Ref(Order[index + 1]);
      removed := cells[removedNode.id].obj;
      cells := (cells[nodeBefore.id := cells[nodeBefore.id].(next := nodeAfter)]
                     [nodeAfter.id := cells[nodeAfter.id].(prev := nodeBefore)]) - {removedNode.id};
      RemoveAtElements(Order, index);
      BoundedIds(Order, RemoveAt(Order, index), nextId);
      Order, Contents := RemoveAt(Order, index), RemoveAt(Contents, index);
    }

    /** `remove(index)`, corrected: IndexOutOfBounds unless
        `0 <= index < size`; otherwise the node at `index` is unlinked and
        its element returned. */
    method Remove(index: int) returns (r: Result<T>)
      requires Valid()
      modifies this
      ensures Valid()
      ensures 0 <= index < old(size) ==> r == Ok(old(Contents)[index]) && Contents == RemoveAt(old(Contents), index)
      ensures !(0 <= index < old(size)) ==> r == Err(IndexOutOfBounds) && Contents == old(Contents)
      ensures |Contents| == 0 ==> head == Null && tail == Null
    {
      var check := CheckIndex(index, size, false);
      if check.Err? {
        return Err(check.error);
      }
      var removed;
      if index == 0 {
        removed := RemoveHead();
        assert Contents == RemoveAt(old(Contents), 0);
      } else if index == size - 1 {
        removed := RemoveTail();
        assert Contents == RemoveAt(old(Contents), index);
      } else {
        removed := RemoveMiddle(index);
      }
      size := size - 1;
      r := Ok(removed);
    }

    /** `size()`. */
    method Size() returns (r: nat)
      requires Valid()
      ensures r == |Contents|
    {
      r := size;
    }

    /** `isEmpty()`: whether `size` is zero. */
    method IsEmpty() returns (r: bool)
      requires Valid()
      ensures r <==> Contents == []
    {
      r := size == 0;
    }

    /** `get(index)`: IndexOutOfBounds unless `0 <= index < size`; otherwise
        the element of the node `getNode` finds. */
    method Get(index: int) returns (r: Result<T>)
      requires Valid()
      ensures 0 <= index < |Contents| ==> r == Ok(Contents[index])
      ensures !(0 <= index < |Contents|) ==> r == Err(IndexOutOfBounds)
    {
      var check := CheckIndex(index, size, false);
      if check.Err? {
        return Err(check.error);
      }
      var p := GetNode(index);
      assert CellAt(cells, Order, Contents, index);
      r := Ok(cells[p.id].obj);
    }

    /** `indexOf(pattern)`: walks forward from the head. */
    method IndexOf(pattern: T) returns (r: int)
      requires Valid()
      ensures IsFirstIndex(Contents, pattern, r)
    {
      var current := head;
      var index := 0;
      while index < size && cells[current.id].obj != pattern
        invariant 0 <= index <= size
        invariant index < size ==> current == Ref(Order[index]) && CellAt(cells, Order, Contents, index)
        invariant pattern !in Contents[..index]
      {
        current := cells[current.id].next;
        index := index + 1;
      }
      assert index == size ==> Contents[..index] == Contents;
      r := if index == size then -1 else index;
    }

    /** `lastIndexOf(pattern)`: walks backward from the tail. */
    method LastIndexOf(pattern: T) returns (r: int)
      requires Valid()
      ensures IsLastIndex(Contents, pattern, r)
    {
      var current := tail;
      var index := size as int - 1;
      while index >= 0 && cells[current.id].obj != pattern
        invariant -1 <= index < size
        invariant index >= 0 ==> current == Ref(Order[index]) && CellAt(cells, Order, Contents, index)
        invariant pattern !in Contents[index + 1..]
      {
        assert Contents[index..] == [Contents[index]] + Contents[index + 1..];
        current := cells[current.id].prev;
        index := index - 1;
      }
      assert index < 0 ==> Contents[index + 1..] == Contents;
      r := if index >= 0 then index else -1;
    }

    /** The default `contains` of `List`. */
    method Contains(pattern: T) returns (r: bool)
      requires Valid()
      ensures r <==> pattern in Contents
    {
      var index := IndexOf(pattern);
      r := index >= 0;
    }

    /** The default `remove(pattern)` of `List`. */
    method RemovePattern(pattern: T) returns (r: bool)
      requires Valid()
      modifies this
      ensures Valid()
      ensures r <==> pattern in old(Contents)
      ensures Contents == RemoveFirst(old(Contents), pattern)
    {
      var index := IndexOf(pattern);
      FirstIndexDetermined(Contents, pattern, index);
      r := index >= 0;
      if r {
        var _ := Remove(index);
      }
    }

    /** `iterator()`: a fresh iterator at the head. */
    method Iterator() returns (it: LinkedListIterator<T>)
      requires Valid()
      ensures fresh(it) && it.list == this && it.Valid() && it.Position == 0
    {
      it := new LinkedListIterator(this);
    }
  }

  /** `LinkedListIterator`: a cursor on the node to be returned next. */
  class LinkedListIterator<T(==)> {
    const list: LinkedList<T>
    var current: Ptr
    /** How many elements have been returned. */
    ghost var Position: nat

    ghost predicate Valid()
      reads this, list
    {
      && list.Valid()
      && Position <= |list.Order|
      && current == if Position < |list.Order| then Ref(list.Order[Position]) else Null
    }

    constructor (list: LinkedList<T>)
      requires list.Valid()
      ensures Valid() && this.list == list && Position == 0
    {
      this.list := list;
      current := list.head;
      Position := 0;
    }

    method HasNext() returns (r: bool)
      requires Valid()
      ensures r <==> Position < |list.Contents|
    {
      r := current != Null;
    }

    /** `next()`: the element of the current node, then moves to `next`; at
        the end, NoSuchElement. */
    method Next() returns (r: Result<T>)
      requires Valid()
      modifies this
      ensures Valid()
      ensures old(Position) < |list.Contents| ==> r == Ok(list.Contents[old(Position)]) && Position == old(Position) + 1
      ensures old(Position) == |list.Contents| ==> r == Err(NoSuchElement) && Position == old(Position)
    {
      if current == Null {
        return Err(NoSuchElement);
      }
      assert CellAt(list.cells, list.Order, list.Contents, Position);
      r := Ok(list.cells[current.id].obj);
      current := list.cells[current.id].next;
      Position := Position + 1;
    }
  }

  /** A snapshot of a list's fields, for running `remove(index)` as the
      source writes it. */
  datatype Links<T> = Links(cells: map<nat, Cell<T>>, head: Ptr, tail: Ptr, size: int)

  /** Following a pointer: a null or dangling one is a NullPointerException. */
  function Deref<T>(cells: map<nat, Cell<T>>, p: Ptr): (r: Result<Cell<T>>)
    ensures r.Ok? <==> p.Ref? && p.id in cells
    ensures r.Ok? ==> r.value == cells[p.id]
    ensures r.Err? ==> r.error == NullPointer
  {
    if p.Ref? && p.id in cells then Ok(cells[p.id]) else Err(NullPointer)
  }

  /** Follows `next` (or `prev`) links `steps` times from `p`. */
  function Walk<T>(cells: map<nat, Cell<T>>, p: Ptr, steps: nat, forward: bool): Result<Ptr>
    decreases steps
  {
    if steps == 0 then Ok(p)
    else match Deref(cells, p)
      case Err(e) => Err(e)
      case Ok(c) => Walk(cells, if forward then c.next else c.prev, steps - 1, forward)
  }

  /** `getNode` on a snapshot. */
  function GetNodeAsWritten<T>(l: Links<T>, index: int): Result<Ptr> {
    if index < l.size / 2 then Walk(l.cells, l.head, if index < 0 then 0 else index, true)
    else Walk(l.cells, l.tail, if l.size - 1 > index then l.size - 1 - index else 0, false)
  }

  /** What a call of `remove(index)` leaves behind: its outcome (the removed
      element or the exception) and the list's fields at that moment, which
      include any link written before the exception was thrown. */
  datatype Removal<T> = Removal(outcome: Result<T>, fields: Links<T>)

  /** `remove(index)` as the source writes it: the bound check admits
      `index == size`, which goes to `removeTail`; `removeTail` leaves the
      new tail's `next` link in place; every other non-zero index goes to
      `removeMiddle`, which links the neighbour before the removed node
      forward and only then dereferences the neighbour after it. `size` is
      decremented only when no exception is thrown. */
  function RemoveAsWritten<T>(l: Links<T>, index: int): (r: Removal<T>)
    ensures CheckIndex(index, l.size, true).Err? ==> r == Removal(Err(IndexOutOfBounds), l)
    ensures r.outcome.Ok? ==> r.fields.size == l.size - 1
    ensures r.outcome.Err? ==> r.fields.size == l.size
  {
    if CheckIndex(index, l.size, true).Err? then Removal(Err(IndexOutOfBounds), l)
    else if index == 0 then
      match Deref(l.cells, l.head)
      case Err(e) => Removal(Err(e), l)
      case Ok(h) =>
        if h.next == Null then Removal(Ok(h.obj), Links(l.cells, Null, Null, l.size - 1))
        else match Deref(l.cells, h.next)
          case Err(e) => Removal(Err(e), l.(head := h.next))
          case Ok(n) => Removal(Ok(h.obj), Links(l.cells[h.next.id := n.(prev := Null)], h.next, l.tail, l.size - 1))
    else if index == l.size then
      match Deref(l.cells, l.tail)
      case Err(e) => Removal(Err(e), l)
      case Ok(t) => Removal(Ok(t.obj), l.(tail := t.prev, size := l.size - 1))
    else
      match GetNodeAsWritten(l, index)
      case Err(e) => Removal(Err(e), l)
      case Ok(p) =>
        match Deref(l.cells, p)
        case Err(e) => Removal(Err(e), l)
        case Ok(removed) =>
          match Deref(l.cells, removed.prev)
          case Err(e) => Removal(Err(e), l)
          case Ok(before) =>
            var cells := l.cells[removed.prev.id := before.(next := removed.next)];
            match Deref(cells, removed.next)
            case Err(e) => Removal(Err(e), l.(cells := cells))
            case Ok(after) =>
              Removal(Ok(removed.obj), Links(cells[removed.next.id := after.(prev := removed.prev)], l.head, l.tail, l.size - 1))
  }

  /** The list `[a, b]` with nodes 0 and 1. */
  function TwoNodes<T>(a: T, b: T): (l: Links<T>)
    ensures Chain(l.cells, [0, 1], [a, b]) && l.head == First([0, 1]) && l.tail == Last([0, 1]) && l.size == 2
  {
    var l := Links(map[0 := Cell(a, Ref(1), Null), 1 := Cell(b, Null, Ref(0))], Ref(0), Ref(1), 2);
    assert CellAt(l.cells, [0, 1], [a, b], 0) && CellAt(l.cells, [0, 1], [a, b], 1);
    l
  }

  /** On the list `[a, b]`, removing the last element (index 1) throws a
      NullPointerException from `removeMiddle` after it has already cut
      node 0's `next` link: the size stays 2 and `get(1)`, which walks from
      the tail, still finds `b`, while a walk from the head ends after `a`.
      `remove(b)` by pattern takes the same path. Index 2, which is out of
      range, instead removes `b` and leaves node 0 still linked forward to
      the removed node, so a walk from the head still finds two nodes under
      a size of one. */
  lemma RemoveAsWrittenCounterexample<T>(a: T, b: T)
    ensures var r := RemoveAsWritten(TwoNodes(a, b), 1);
            && r.outcome == Err(NullPointer)
            && r.fields.size == 2 && r.fields.head == Ref(0) && r.fields.tail == Ref(1)
            && r.fields.cells[0].next == Null
            && Walk(r.fields.cells, r.fields.head, 1, true) == Ok(Null)
            && GetNodeAsWritten(r.fields, 1) == Ok(Ref(1)) && r.fields.cells[1].obj == b
    ensures a != b ==> RemoveAsWritten(TwoNodes(a, b), FirstIndexOf([a, b], b)).outcome == Err(NullPointer)
    ensures var r := RemoveAsWritten(TwoNodes(a, b), 2);
            && r.outcome == Ok(b) && r.fields.size == 1
            && r.fields.tail == Ref(0) && r.fields.cells[0].next == Ref(1)
            && Walk(r.fields.cells, r.fields.head, 2, true) == Ok(Null)
  {
    var l := TwoNodes(a, b);
    assert GetNodeAsWritten(l, 1) == Ok(Ref(1)) by {
      assert Walk(l.cells, l.tail, 0, false) == Ok(Ref(1));
    }
    var l1 := RemoveAsWritten(l, 1).fields;
    assert Walk(l1.cells, Null, 0, true) == Ok(Null);
    assert Walk(l1.cells, l1.tail, 0, false) == Ok(Ref(1));
    var l' := RemoveAsWritten(l, 2).fields;
    assert Walk(l'.cells, Null, 0, true) == Ok(Null);
    assert Walk(l'.cells, Ref(1), 1, true) == Ok(Null);
  }

  /** On the empty list, `remove(0)` passes the bound check and throws a
      NullPointerException instead of an IndexOutOfBoundsException. */
  lemma RemoveAsWrittenEmpty<T>()
    ensures var empty: Links<T> := Links(map[], Null, Null, 0);
            RemoveAsWritten(empty, 0) == Removal(Err(NullPointer), empty)
  {
  }
}
