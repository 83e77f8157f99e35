/** `TreeSet`: a set kept as an unbalanced binary search tree under a
    comparator, with parent links so that its iterator can climb back up.
    The nodes are cells of an arena (see `TreeLayouts`); `Layout` is the tree
    their links describe, and its in-order elements are the contents. */
module TreeSets {
  import opened Outcomes
  import opened Lists
  import opened TreeLayouts

  class TreeSet<T(!new)> {
    /** The comparator every search and insertion consults. */
    const cmp: (T, T) -> int

    /** The tree the links describe. */
    ghost var Layout: Tree<T>

    /** The nodes, by id. */
    var cells: map<nat, Cell<T>>
    var root: Ptr
    var size: nat
    /** The id the next new node gets. */
    var nextId: nat

    /** The links describe `Layout`, and `root` is its root. */
    ghost predicate Linkage()
      reads this
    {
      Linked(cells, Layout, Null) && Distinct(Layout) && root == RootOf(Layout)
    }

    /** Every cell is a node of the tree, `size` counts them, and the tree is
        a search tree under a lawful comparator: its elements are in strictly
        ascending order. */
    ghost predicate Valid()
      reads this
    {
      && Linkage()
      && cells.Keys == Ids(Layout)
      && (forall id :: id in cells ==> id < nextId)
      && size == |Order(Layout)|
      && IsComparator(cmp)
      && Ascending(cmp, Values(Layout))
    }

    /** The contents, in iteration order. */
    ghost function Elements(): seq<T>
      reads this
    {
      Values(Layout)
    }

    /** `TreeSet(comparator)`: an empty set. */
    constructor (cmp: (T, T) -> int)
      requires IsComparator(cmp)
      ensures Valid() && Elements() == [] && this.cmp == cmp
    {
      this.cmp := cmp;
      Layout := Nil;
      cells := map[];
      root := Null;
      size := 0;
      nextId := 0;
    }

    /** `contains(pattern)`: walks down from the root, right on a greater and
        left on a smaller comparison, until a node compares 0; true exactly
        when some element compares 0 with `pattern`. */
    method Contains(pattern: T) returns (r: bool)
      requires Valid()
      ensures r <==> Matches(cmp, Elements(), pattern)
    {
      var current := root;
      var res := false;
      while current != Null && !res
        invariant current == Null || current.id in Ids(Layout)
        invariant Search(cmp, Layout, pattern) == (res || Search(cmp, SubAt(Layout, current), pattern))
        decreases |Order(SubAt(Layout, current))| + (if res then 0 else 1)
      {
        StepDown(cmp, cells, Layout, current.id, pattern);
        var c := cells[current.id];
        var compRes := cmp(pattern, c.obj);
        if compRes == 0 {
          res := true;
        } else {
          current := if compRes > 0 then c.right else c.left;
        }
      }
      SearchMatches(cmp, Layout, pattern);
      r := res;
    }

    /** `getParentOrNode(pattern)`: the same walk, returning the node that
        compares 0 or else the last node visited (`Null` on an empty tree). */
    method GetParentOrNode(pattern: T) returns (p: Ptr)
      requires Linkage()
      ensures p == Descend(cmp, Layout, pattern, Null)
      ensures p == Null <==> Layout.Nil?
      ensures p.Ref? ==> p.id in Ids(Layout)
    {
      var current := root;
      var parent := Null;
      if Layout.Node? {
        FindRoot(Layout);
        LinkedFind(cells, Layout, Null, Layout.id);
        DescendEnds(cmp, Layout, pattern, Null);
      }
      while current != Null && cmp(pattern, cells[current.id].obj) != 0
        invariant current == Null || current.id in Ids(Layout)
        invariant current.Ref? ==> current.id in cells && SubAt(Layout, current).Node? && SubAt(Layout, current).id == current.id
        invariant current.Ref? ==> cells[current.id].obj == SubAt(Layout, current).obj
        invariant Descend(cmp, Layout, pattern, Null) == Descend(cmp, SubAt(Layout, current), pattern, parent)
        decreases |Order(SubAt(Layout, current))|
      {
        StepDown(cmp, cells, Layout, current.id, pattern);
        var c := cells[current.id];
        parent := current;
        current := if cmp(pattern, c.obj) > 0 then c.right else c.left;
      }
      p := if current == Null then parent else current;
    }

    /** `getNode(pattern)`: the node whose element compares 0 with
        `pattern`, `Null` when there is none. */
    method GetNode(pattern: T) returns (r: Ptr)
      requires Valid()
      ensures r.Ref? <==> Matches(cmp, Elements(), pattern)
      ensures r.Ref? ==> r.id in Ids(Layout) && r.id in cells && cmp(pattern, cells[r.id].obj) == 0
    {
      r := GetParentOrNode(pattern);
      SearchMatches(cmp, Layout, pattern);
      if r != Null {
        DescendEnds(cmp, Layout, pattern, Null);
        LinkedFind(cells, Layout, Null, r.id);
        var compRes := cmp(pattern, cells[r.id].obj);
        r := if compRes == 0 then r else Null;
      }
    }

    /** `getParent(pattern)` on a non-empty tree: `Null` when the walk finds
        a node comparing 0, else the last node visited, which has no child
        on `pattern`'s side. */
    method GetParent(pattern: T) returns (r: Ptr)
      requires Linkage() && root != Null
      ensures r == Null <==> Search(cmp, Layout, pattern)
      ensures r.Ref? ==> r == Descend(cmp, Layout, pattern, Null) && r.id in Ids(Layout)
    {
      r := GetParentOrNode(pattern);
      DescendEnds(cmp, Layout, pattern, Null);
      LinkedFind(cells, Layout, Null, r.id);
      var compRes := cmp(pattern, cells[r.id].obj);
      r := if compRes == 0 then Null else r;
    }

    /** `get(pattern)`: the element comparing 0 with `pattern`, or null. */
    method Get(pattern: T) returns (r: Option<T>)
      requires Valid()
      ensures r.None? <==> !Matches(cmp, Elements(), pattern)
      ensures r.Some? ==> cmp(pattern, r.value) == 0 && r.value in Elements()
    {
      var node := GetNode(pattern);
      if node != Null {
        LinkedFind(cells, Layout, Null, node.id);
        IndexOfOrder(Layout, node.id);
        r := Some(cells[node.id].obj);
      } else {
        r := None;
      }
    }

    /** `addAfterParent(node)`: hangs the new node `id` below the end of the
        walk for its element, on the right when the element compares greater
        than the parent's, on the left otherwise. */
    method AddAfterParent(id: nat)
      requires Linkage() && root != Null && id in cells && id !in Ids(Layout)
      requires cells[id] == Cell(cells[id].obj, Null, Null, Null)
      requires !Search(cmp, Layout, cells[id].obj)
      modifies this
      ensures Layout == Ins(cmp, old(Layout), old(cells[id].obj), id)
      ensures Linkage() && cells.Keys == old(cells.Keys)
      ensures size == old(size) && nextId == old(nextId)
    {
      var obj := cells[id].obj;
      var parent := GetParent(obj);
      LinkedIds(cells, Layout, Null);
      var pc := cells[parent.id];
      if cmp(obj, pc.obj) > 0 {
        cells := cells[parent.id := pc.(right := Ref(id))];
      } else {
        cells := cells[parent.id := pc.(left := Ref(id))];
      }
      cells := cells[id := cells[id].(parent := parent)];
      InsLinked(cmp, old(cells), Layout, obj, id, Null);
      InsIds(cmp, Layout, obj, id);
      InsSize(cmp, Layout, obj, id);
      assert cells == Attached(cmp, old(cells), parent.id, obj, id);
      Layout := Ins(cmp, Layout, obj, id);
    }

    /** `addRoot(node)`: the new node `id` becomes the root of the empty
        tree. */
    method AddRoot(id: nat)
      requires Linkage() && root == Null && id in cells
      requires cells[id] == Cell(cells[id].obj, Null, Null, Null)
      modifies this
      ensures Layout == Ins(cmp, old(Layout), old(cells[id].obj), id)
      ensures Linkage() && cells == old(cells)
      ensures size == old(size) && nextId == old(nextId)
    {
      root := Ref(id);
      Layout := Ins(cmp, Layout, cells[id].obj, id);
    }

    /** `add(obj)`: when no element compares 0 with `obj`, a new node holding
        it joins the tree and the set grows by `obj`; otherwise nothing
        changes. */
    method Add(obj: T) returns (r: bool)
      requires Valid()
      modifies this
      ensures Valid()
      ensures r <==> !Matches(cmp, old(Elements()), obj)
      ensures r ==> multiset(Elements()) == multiset(old(Elements())) + multiset{obj}
      ensures !r ==> unchanged(this)
      ensures Matches(cmp, Elements(), obj)
    {
      var found := Contains(obj);
      r := false;
      if !found {
        r := true;
        AddNode(obj);
        MatchesItself(cmp, Elements(), obj);
      }
    }

    /** The branch of `add` that inserts: a new node holding `obj` is
        linked into the tree and `size` grows by one. */
    method AddNode(obj: T)
      requires Valid() && !Matches(cmp, Elements(), obj)
      modifies this
      ensures Valid()
      ensures multiset(Elements()) == multiset(old(Elements())) + multiset{obj}
    {
      var id := nextId;
      SearchMatches(cmp, Layout, obj);
      LinkedIds(cells, Layout, Null);
      nextId := nextId + 1;
      LinkedFresh(cells, Layout, Null, id, Cell(obj, Null, Null, Null));
      cells := cells[id := Cell(obj, Null, Null, Null)];
      LinkNode(id);
      size := size + 1;
    }

    /** The linking step of `add`: the new node `id` becomes the root of an
        empty tree (`addRoot`) or hangs below the end of the walk
        (`addAfterParent`). */
    method LinkNode(id: nat)
      requires Linkage() && id in cells && id !in Ids(Layout)
      requires cells[id] == Cell(cells[id].obj, Null, Null, Null)
      requires IsComparator(cmp) && Ascending(cmp, Values(Layout))
      requires !Search(cmp, Layout, cells[id].obj)
      modifies this
      ensures Linkage() && cells.Keys == old(cells.Keys)
      ensures Ids(Layout) == old(Ids(Layout)) + {id}
      ensures |Order(Layout)| == |old(Order(Layout))| + 1
      ensures Ascending(cmp, Values(Layout))
      ensures multiset(Values(Layout)) == multiset(old(Values(Layout))) + multiset{old(cells[id].obj)}
      ensures size == old(size) && nextId == old(nextId)
    {
      ghost var before := Layout;
      ghost var x := cells[id].obj;
      if root == Null {
        AddRoot(id);
      } else {
        AddAfterParent(id);
      }
      InsSearchTree(cmp, before, x, id);
    }

    /** `removeNonJunction(node)` for a node `n` with at most one child: the
        child (the left one if any) takes `n`'s place under `n`'s parent, or
        as the root, and `n` leaves the arena. */
    method RemoveNonJunction(n: nat)
      requires Linkage() && cells.Keys == Ids(Layout) && n in cells
      requires cells[n].left == Null || cells[n].right == Null
      modifies this
      ensures Layout == Splice(old(Layout), n)
      ensures IndexOf(old(Layout), n) < |old(Order(Layout))| == |old(Values(Layout))|
      ensures Order(Layout) == RemoveAt(old(Order(Layout)), IndexOf(old(Layout), n))
      ensures Values(Layout) == RemoveAt(old(Values(Layout)), IndexOf(old(Layout), n))
      ensures Linkage() && cells.Keys == Ids(Layout) && cells.Keys <= old(cells.Keys)
      ensures size == old(size) && nextId == old(nextId)
    {
      NonJunctionRemoval(cells, Layout, n);
      var c := cells[n];
      var child := if c.left != Null then c.left else c.right;
      if c.parent == Null {
        root := child;
      } else {
        var pc := cells[c.parent.id];
        if pc.left == Ref(n) {
          cells := cells[c.parent.id := pc.(left := child)];
        } else {
          cells := cells[c.parent.id := pc.(right := child)];
        }
      }
      if child != Null {
        cells := cells[child.id := cells[child.id].(parent := c.parent)];
      }
      cells := cells - {n};
      assert cells == Unlinked(old(cells), n);
      Layout := Splice(Layout, n);
    }

    /** `getGreatestFrom(node)`: follows right links down to the last node of
        `node`'s subtree in the order. */
    method GetGreatestFrom(node: Ptr) returns (g: Ptr)
      requires Linkage() && node.Ref? && node.id in Ids(Layout)
      ensures g.Ref? && g.id in Ids(Layout) && g.id in cells && cells[g.id].right == Null
      ensures IndexOf(Layout, g.id) + 1 == End(Layout, node.id)
    {
      LinkedIds(cells, Layout, Null);
      g := node;
      while cells[g.id].right != Null
        invariant g.Ref? && g.id in Ids(Layout) && End(Layout, g.id) == End(Layout, node.id)
        decreases |Order(Find(Layout, g.id))|
      {
        LinkedFind(cells, Layout, Null, g.id);
        FindRight(Layout, g.id);
        g := cells[g.id].right;
      }
      LinkedFind(cells, Layout, Null, g.id);
      FindIndex(Layout, g.id);
      ghost var f := Find(Layout, g.id);
      assert Order(f) == Order(f.left) + [g.id];
    }

    /** `removeJunction(node)` for a node `n` with two children: `n` takes
        the element of the greatest node of its left subtree, its
        predecessor, which is then removed in `n`'s stead. */
    method RemoveJunction(n: nat)
      requires Linkage() && cells.Keys == Ids(Layout) && n in cells
      requires cells[n].left != Null && cells[n].right != Null
      modifies this
      ensures 0 < IndexOf(old(Layout), n) < |old(Order(Layout))| == |old(Values(Layout))|
      ensures Order(Layout) == RemoveAt(old(Order(Layout)), IndexOf(old(Layout), n) - 1)
      ensures Values(Layout) == RemoveAt(old(Values(Layout)), IndexOf(old(Layout), n))
      ensures Linkage() && cells.Keys == Ids(Layout) && cells.Keys <= old(cells.Keys)
      ensures size == old(size) && nextId == old(nextId)
    {
      LinkedFind(cells, Layout, Null, n);
      FindLeft(Layout, n);
      var greatest := GetGreatestFrom(cells[n].left);
      TakeElement(n, greatest.id);
      RemoveNonJunction(greatest.id);
    }

    /** The first step of `removeJunction(n)`: `n` takes the element of its
        predecessor `g`, which has no right child. Splicing `g` out of the
        result drops `g`'s place from the order and `n`'s element from the
        values. */
    method TakeElement(n: nat, g: nat)
      requires Linkage() && cells.Keys == Ids(Layout) && n in Ids(Layout) && g in Ids(Layout)
      requires g in cells && cells[g].right == Null && IndexOf(Layout, g) + 1 == IndexOf(Layout, n)
      modifies this
      ensures Linkage() && cells.Keys == Ids(Layout) && cells.Keys == old(cells.Keys)
      ensures g in cells && cells[g].right == Null
      ensures IndexOf(old(Layout), n) < |old(Order(Layout))| == |old(Values(Layout))|
      ensures Order(Splice(Layout, g)) == RemoveAt(old(Order(Layout)), IndexOf(old(Layout), n) - 1)
      ensures Values(Splice(Layout, g)) == RemoveAt(old(Values(Layout)), IndexOf(old(Layout), n))
      ensures size == old(size) && nextId == old(nextId)
    {
      JunctionRemoval(cells, Layout, n, g);
      var w := cells[g].obj;
      cells := cells[n := cells[n].(obj := w)];
      Layout := SetObj(Layout, n, w);
    }

    /** `removeNode(node)`: removes node `n` by one of the two cases above,
        and `size` shrinks by one. The element at `n`'s place leaves the
        contents; the nodes after that place each move one place forward. */
    method RemoveNode(n: nat)
      requires Valid() && n in Ids(Layout)
      modifies this
      ensures Valid() && nextId == old(nextId)
      ensures IndexOf(old(Layout), n) < |old(Elements())|
      ensures Elements() == RemoveAt(old(Elements()), IndexOf(old(Layout), n))
      ensures |Order(Layout)| + 1 == |old(Order(Layout))|
      ensures forall i :: IndexOf(old(Layout), n) < i < |old(Order(Layout))| ==> Order(Layout)[i - 1] == old(Order(Layout))[i]
    {
      ghost var before := Layout;
      ghost var k := IndexOf(Layout, n);
      IndexOfOrder(Layout, n);
      if cells[n].left == Null || cells[n].right == Null {
        RemoveNonJunction(n);
      } else {
        RemoveJunction(n);
      }
      size := size - 1;
      AscendingRemoveAt(cmp, Values(before), k);
      forall i | k < i < |Order(before)|
        ensures Order(Layout)[i - 1] == Order(before)[i]
      {
      }
    }

    /** `remove(pattern)`: removes the element comparing 0 with `pattern`,
        if any, and reports whether there was one; afterwards no element
        compares 0 with `pattern`. */
    method Remove(pattern: T) returns (r: bool)
      requires Valid()
      modifies this
      ensures Valid()
      ensures r <==> Matches(cmp, old(Elements()), pattern)
      ensures r ==> exists k :: 0 <= k < |old(Elements())| && cmp(pattern, old(Elements())[k]) == 0
                                && Elements() == RemoveAt(old(Elements()), k)
      ensures !r ==> unchanged(this)
      ensures !Matches(cmp, Elements(), pattern)
    {
      var node := GetNode(pattern);
      r := false;
      if node != Null {
        ghost var k := IndexOf(Layout, node.id);
        LinkedFind(cells, Layout, Null, node.id);
        IndexOfOrder(Layout, node.id);
        AscendingUnique(cmp, Elements(), k, pattern);
        RemoveNode(node.id);
        r := true;
      }
    }

    /** `size()`: the number of elements. */
    method Size() returns (r: nat)
      requires Valid()
      ensures r == |Elements()|
    {
      OrderIds(Layout);
      r := size;
    }

    /** `isEmpty()`. */
    method IsEmpty() returns (r: bool)
      requires Valid()
      ensures r <==> Elements() == []
    {
      OrderIds(Layout);
      r := size == 0;
    }

    /** `iterator()`: a walk over the elements in comparator order. */
    method Iterator() returns (it: TreeSetIterator<T>)
      requires Valid()
      ensures fresh(it) && it.Valid() && it.treeSet == this
      ensures it.Position == 0 && it.last == Null
    {
      it := new TreeSetIterator(this);
    }
  }

  /** `TreeSetIterator`: an in-order walk that keeps the node it will visit
      next and the node `next` returned last, and moves from node to node
      by the links alone. */
  class TreeSetIterator<T(!new)> {
    const treeSet: TreeSet<T>
    /** The node `next` returns next; `Null` past the end. */
    var current: Ptr
    /** The node `next` returned last; `Null` before the first `next` and
        after a `remove`. */
    var last: Ptr
    /** How many nodes of the order lie before `current`. */
    ghost var Position: nat

    ghost predicate Valid()
      reads this, treeSet
    {
      && treeSet.Valid()
      && Position <= |Order(treeSet.Layout)|
      && current == PtrAt(Order(treeSet.Layout), Position)
      && (last != Null ==> 0 < Position && last == Ref(Order(treeSet.Layout)[Position - 1]))
    }

    /** The constructor: `current` starts at the least node. Unlike the
        constructor as written (see `StartAsWritten`), an empty set gives
        an iterator that is already at its end. */
    constructor (treeSet: TreeSet<T>)
      requires treeSet.Valid()
      ensures Valid() && this.treeSet == treeSet && Position == 0 && last == Null
    {
      this.treeSet := treeSet;
      current := Null;
      last := Null;
      Position := 0;
      new;
      if treeSet.root != Null {
        FindRoot(treeSet.Layout);
        current := GetLeastFrom(treeSet.root);
      }
    }

    /** The constructor's `getLeastFrom(root)` as written: on an empty set
        `root` is null and the loop's first `node.left` throws
        NullPointerException. */
    method StartAsWritten() returns (r: Result<Ptr>)
      requires treeSet.Valid()
      ensures r.Err? <==> treeSet.Elements() == []
      ensures r.Err? ==> r.error == NullPointer
      ensures r.Ok? ==> r.value == PtrAt(Order(treeSet.Layout), 0)
    {
      OrderIds(treeSet.Layout);
      if treeSet.root == Null {
        return Err(NullPointer);
      }
      FindRoot(treeSet.Layout);
      var least := GetLeastFrom(treeSet.root);
      r := Ok(least);
    }

    /** `hasNext()`. */
    method HasNext() returns (r: bool)
      requires Valid()
      ensures r <==> Position < |treeSet.Elements()|
    {
      OrderIds(treeSet.Layout);
      r := current != Null;
    }

    /** `next()`: the element at `current`, which becomes `last`, while
        `current` moves to the next node in order; at the end,
        NoSuchElement and nothing changes. */
    method Next() returns (r: Result<T>)
      requires Valid()
      modifies this
      ensures Valid()
      ensures old(Position) < |treeSet.Elements()| ==>
                r == Ok(treeSet.Elements()[old(Position)]) && Position == old(Position) + 1
                && last == Ref(Order(treeSet.Layout)[old(Position)])
      ensures old(Position) >= |treeSet.Elements()| ==> r == Err(NoSuchElement) && unchanged(this)
    {
      OrderIds(treeSet.Layout);
      if current == Null {
        return Err(NoSuchElement);
      }
      ghost var L := treeSet.Layout;
      OrderIndexOf(L, Position);
      IndexOfOrder(L, current.id);
      LinkedFind(treeSet.cells, L, Null, current.id);
      last := current;
      current := GetNextCurrent(current);
      Position := Position + 1;
      r := Ok(treeSet.cells[last.id].obj);
    }

    /** `remove()`: the node `next` returned last leaves the tree, or, when
        it has two children, takes its predecessor's element while the
        predecessor's node leaves. Either way that element leaves the
        contents, `current` stays on the same node, now one place earlier,
        and `last` is cleared; IllegalState when there is no `last`. */
    method Remove() returns (r: Result<()>)
      requires Valid()
      modifies this, treeSet
      ensures Valid()
      ensures old(last) == Null ==> r == Err(IllegalState) && unchanged(this) && unchanged(treeSet)
      ensures old(last) != Null ==>
                && r == Ok(())
                && 0 < old(Position) <= |old(treeSet.Elements())|
                && treeSet.Elements() == RemoveAt(old(treeSet.Elements()), old(Position) - 1)
                && Position == old(Position) - 1 && current == old(current) && last == Null
    {
      if last == Null {
        return Err(IllegalState);
      }
      ghost var L := treeSet.Layout;
      OrderIndexOf(L, Position - 1);
      treeSet.RemoveNode(last.id);
      Position := Position - 1;
      last := Null;
      r := Ok(());
    }

    /** `getLeastFrom(node)`: follows left links down to the first node of
        `node`'s subtree in the order. */
    method GetLeastFrom(node: Ptr) returns (r: Ptr)
      requires treeSet.Linkage() && node.Ref? && node.id in Ids(treeSet.Layout)
      ensures Start(treeSet.Layout, node.id) < |Order(treeSet.Layout)|
      ensures r == PtrAt(Order(treeSet.Layout), Start(treeSet.Layout, node.id))
    {
      ghost var L := treeSet.Layout;
      LinkedIds(treeSet.cells, L, Null);
      r := node;
      while treeSet.cells[r.id].left != Null
        invariant r.Ref? && r.id in Ids(L) && Start(L, r.id) == Start(L, node.id)
        decreases |Order(Find(L, r.id))|
      {
        LinkedFind(treeSet.cells, L, Null, r.id);
        FindLeft(L, r.id);
        r := treeSet.cells[r.id].left;
      }
      LinkedFind(treeSet.cells, L, Null, r.id);
      FindIndex(L, r.id);
      IndexOfOrder(L, r.id);
    }

    /** `getNextCurrent(node)`: the node after `node` in the order, the
        least of its right subtree if it has one, else the nearest ancestor
        it lies to the left of; `Null` after the last node. */
    method GetNextCurrent(node: Ptr) returns (r: Ptr)
      requires treeSet.Linkage() && node.Ref? && node.id in Ids(treeSet.Layout)
      ensures r == PtrAt(Order(treeSet.Layout), IndexOf(treeSet.Layout, node.id) + 1)
    {
      ghost var L := treeSet.Layout;
      LinkedIds(treeSet.cells, L, Null);
      LinkedFind(treeSet.cells, L, Null, node.id);
      FindRight(L, node.id);
      if treeSet.cells[node.id].right != Null {
        r := GetLeastFrom(treeSet.cells[node.id].right);
      } else {
        FindIndex(L, node.id);
        ghost var f := Find(L, node.id);
        assert Order(f) == Order(f.left) + [node.id];
        r := GetGreaterParent(node);
      }
    }

    /** `getGreaterParent(node)`: climbs while it comes up from a right
        child; the parent it reaches from a left child is the first node
        after `node`'s subtree in the order, and `Null` means there is
        none. */
    method GetGreaterParent(node: Ptr) returns (r: Ptr)
      requires treeSet.Linkage() && node.Ref? && node.id in Ids(treeSet.Layout)
      ensures r == PtrAt(Order(treeSet.Layout), End(treeSet.Layout, node.id))
    {
      ghost var L := treeSet.Layout;
      LinkedIds(treeSet.cells, L, Null);
      var n := node;
      ParentLink(treeSet.cells, L, Null, n.id);
      var parent := treeSet.cells[n.id].parent;
      while parent != Null && n == treeSet.cells[parent.id].right
        invariant n.Ref? && n.id in Ids(L) && End(L, n.id) == End(L, node.id)
        invariant parent == treeSet.cells[n.id].parent
        invariant parent.Ref? ==> parent.id in Ids(L) && parent.id in treeSet.cells
        invariant n.id == L.id ==> parent == Null
        invariant n.id != L.id ==> parent.Ref? && (treeSet.cells[parent.id].left == n || treeSet.cells[parent.id].right == n)
        decreases Start(L, n.id)
      {
        LinkedFind(treeSet.cells, L, Null, parent.id);
        FindRight(L, parent.id);
        FindIndex(L, parent.id);
        n := parent;
        ParentLink(treeSet.cells, L, Null, n.id);
        parent := treeSet.cells[n.id].parent;
      }
      if parent == Null {
        FindRoot(L);
      } else {
        LinkedFind(treeSet.cells, L, Null, parent.id);
        FindLeft(L, parent.id);
        IndexOfOrder(L, parent.id);
      }
      r := parent;
    }
  }
}
