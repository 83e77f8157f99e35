/** The node structure behind `TreeSet`: nodes in an arena `cells` addressed
    by stable ids, each holding its element and its `parent`, `left` and
    `right` links. A ghost `Tree` is the shape those links describe; its
    in-order elements are the contents of the set. */
module TreeLayouts {
  import opened Lists

  /** A node reference: `Null`, or the id of a cell. */
  datatype Ptr = Null | Ref(id: nat)

  /** A node: its element and its `parent`, `left` and `right` links. */
  datatype Cell<T> = Cell(obj: T, parent: Ptr, left: Ptr, right: Ptr)

  /** The shape of the linked nodes: each node is an id and the element it
      holds. */
  datatype Tree<T> = Nil | Node(left: Tree<T>, id: nat, obj: T, right: Tree<T>)

  /** The reference to the root of `t`. */
  function RootOf<T>(t: Tree<T>): Ptr {
    if t.Nil? then Null else Ref(t.id)
  }

  /** The reference to position `i` of `order`, `Null` past its end. */
  function PtrAt(order: seq<nat>, i: nat): Ptr {
    if i < |order| then Ref(order[i]) else Null
  }

  ghost function Ids<T>(t: Tree<T>): set<nat> {
    match t
    case Nil => {}
    case Node(l, i, _, r) => Ids(l) + {i} + Ids(r)
  }

  /** The node ids in order. */
  ghost function Order<T>(t: Tree<T>): seq<nat> {
    match t
    case Nil => []
    case Node(l, i, _, r) => Order(l) + [i] + Order(r)
  }

  /** The elements in order. */
  ghost function Values<T>(t: Tree<T>): seq<T> {
    match t
    case Nil => []
    case Node(l, _, x, r) => Values(l) + [x] + Values(r)
  }

  /** No id occurs twice. */
  ghost predicate Distinct<T>(t: Tree<T>) {
    match t
    case Nil => true
    case Node(l, i, _, r) => i !in Ids(l) && i !in Ids(r) && Ids(l) !! Ids(r) && Distinct(l) && Distinct(r)
  }

  /** `cells` links the nodes of `t` as `t` says, the root of `t` pointing
      up to `parent`. */
  ghost predicate Linked<T>(cells: map<nat, Cell<T>>, t: Tree<T>, parent: Ptr) {
    match t
    case Nil => true
    case Node(l, i, x, r) =>
      && i in cells && cells[i] == Cell(x, parent, RootOf(l), RootOf(r))
      && Linked(cells, l, Ref(i)) && Linked(cells, r, Ref(i))
  }

  /** The subtree of `t` rooted at node `id`. */
  ghost function Find<T>(t: Tree<T>, id: nat): Tree<T> {
    match t
    case Nil => Nil
    case Node(l, i, _, r) => if id == i then t else if id in Ids(l) then Find(l, id) else Find(r, id)
  }

  /** Where the subtree rooted at `id` begins in `Order(t)`. */
  ghost function Start<T>(t: Tree<T>, id: nat): nat {
    match t
    case Nil => 0
    case Node(l, i, _, r) => if id == i then 0 else if id in Ids(l) then Start(l, id) else |Order(l)| + 1 + Start(r, id)
  }

  /** Where the subtree rooted at `id` ends (exclusive) in `Order(t)`. */
  ghost function End<T>(t: Tree<T>, id: nat): nat {
    Start(t, id) + |Order(Find(t, id))|
  }

  /** The subtree `p` designates: `Nil` for `Null`. */
  ghost function SubAt<T>(t: Tree<T>, p: Ptr): Tree<T> {
    if p == Null then Nil else Find(t, p.id)
  }

  /** The position of node `id` in `Order(t)`. */
  ghost function IndexOf<T>(t: Tree<T>, id: nat): nat {
    match t
    case Nil => 0
    case Node(l, i, _, r) => if id == i then |Order(l)| else if id in Ids(l) then IndexOf(l, id) else |Order(l)| + 1 + IndexOf(r, id)
  }

  // ---- Shape ---------------------------------------------------------------

  /** Ids, order and values describe the same nodes. */
  lemma {:induction false} OrderIds<T>(t: Tree<T>)
    ensures |Values(t)| == |Order(t)|
    ensures forall id :: id in Ids(t) <==> id in Order(t)
  {
    match t
    case Nil =>
    case Node(l, i, _, r) =>
      OrderIds(l);
      OrderIds(r);
  }

  /** A linked tree's nodes are all in the arena. */
  lemma {:induction false} LinkedIds<T>(cells: map<nat, Cell<T>>, t: Tree<T>, parent: Ptr)
    requires Linked(cells, t, parent)
    ensures Ids(t) <= cells.Keys
  {
    match t
    case Nil =>
    case Node(l, i, _, r) =>
      LinkedIds(cells, l, Ref(i));
      LinkedIds(cells, r, Ref(i));
  }

  /** Links of nodes whose cells did not change stay. */
  lemma {:induction false} LinkedFrame<T>(cells: map<nat, Cell<T>>, cells': map<nat, Cell<T>>, t: Tree<T>, parent: Ptr)
    requires Linked(cells, t, parent)
    requires forall id :: id in Ids(t) ==> id in cells && id in cells' && cells'[id] == cells[id]
    ensures Linked(cells', t, parent)
  {
    match t
    case Nil =>
    case Node(l, i, _, r) =>
      LinkedFrame(cells, cells', l, Ref(i));
      LinkedFrame(cells, cells', r, Ref(i));
  }

  /** A new cell outside the tree leaves its links as they were. */
  lemma LinkedFresh<T>(cells: map<nat, Cell<T>>, t: Tree<T>, parent: Ptr, id: nat, c: Cell<T>)
    requires Linked(cells, t, parent) && id !in Ids(t)
    ensures Linked(cells[id := c], t, parent)
  {
    LinkedIds(cells, t, parent);
    LinkedFrame(cells, cells[id := c], t, parent);
  }

  /** The subtree at a node of `t` is rooted there, lies inside `t`, and its
      root cell holds its element and links to its children. */
  lemma {:induction false} LinkedFind<T>(cells: map<nat, Cell<T>>, t: Tree<T>, parent: Ptr, id: nat)
    requires Linked(cells, t, parent) && id in Ids(t)
    ensures Find(t, id).Node? && Find(t, id).id == id && id in cells
    ensures cells[id].obj == Find(t, id).obj
    ensures cells[id].left == RootOf(Find(t, id).left) && cells[id].right == RootOf(Find(t, id).right)
  {
    match t
    case Node(l, i, _, r) =>
      if id != i {
        if id in Ids(l) {
          LinkedFind(cells, l, Ref(i), id);
        } else {
          LinkedFind(cells, r, Ref(i), id);
        }
      }
  }

  /** The subtree at `id` lies inside `t`: its nodes are nodes of `t`, and
      it spans `Start .. End` with `id` itself at `IndexOf`. */
  lemma {:induction false} FindIndex<T>(t: Tree<T>, id: nat)
    requires id in Ids(t)
    ensures Find(t, id).Node? && Find(t, id).id == id
    ensures Ids(Find(t, id)) <= Ids(t)
    ensures IndexOf(t, id) == Start(t, id) + |Order(Find(t, id).left)|
    ensures End(t, id) <= |Order(t)|
  {
    match t
    case Node(l, i, _, r) =>
      if id != i {
        if id in Ids(l) {
          FindIndex(l, id);
        } else {
          FindIndex(r, id);
        }
      }
  }

  /** Node `id` sits at `IndexOf(t, id)` of the order, with its element at
      the same place among the values. */
  lemma {:induction false} IndexOfOrder<T>(t: Tree<T>, id: nat)
    requires id in Ids(t)
    ensures IndexOf(t, id) < |Order(t)| == |Values(t)|
    ensures Find(t, id).Node? && Order(t)[IndexOf(t, id)] == id
    ensures Values(t)[IndexOf(t, id)] == Find(t, id).obj
  {
    match t
    case Node(l, i, v, r) =>
      OrderIds(l);
      OrderIds(r);
      var k := |Order(l)|;
      if id == i {
        assert Order(t)[k] == i && Values(t)[k] == v;
      } else if id in Ids(l) {
        IndexOfOrder(l, id);
        var m := IndexOf(l, id);
        assert Order(t)[m] == Order(l)[m] && Values(t)[m] == Values(l)[m];
      } else {
        IndexOfOrder(r, id);
        var m := IndexOf(r, id);
        assert Order(t)[k + 1 + m] == Order(r)[m] && Values(t)[k + 1 + m] == Values(r)[m];
      }
  }

  /** In a tree without repeated ids, the node at position `j` has index
      `j`. */
  lemma {:induction false} OrderIndexOf<T>(t: Tree<T>, j: nat)
    requires Distinct(t) && j < |Order(t)|
    ensures Order(t)[j] in Ids(t) && IndexOf(t, Order(t)[j]) == j
  {
    match t
    case Node(l, i, _, r) =>
      var k := |Order(l)|;
      if j < k {
        OrderIndexOf(l, j);
        assert Order(t)[j] == Order(l)[j];
      } else if k < j {
        OrderIndexOf(r, j - k - 1);
        assert Order(t)[j] == Order(r)[j - k - 1];
      } else {
        assert Order(t)[j] == i;
      }
  }

  /** The subtree at the root is the whole tree. */
  lemma FindRoot<T>(t: Tree<T>)
    requires t.Node?
    ensures Find(t, t.id) == t && Start(t, t.id) == 0 && End(t, t.id) == |Order(t)|
  {
  }

  /** The left child of node `id` spans from where `id`'s subtree starts up
      to `id` itself. */
  lemma {:induction false} FindLeft<T>(t: Tree<T>, id: nat)
    requires Distinct(t) && id in Ids(t)
    ensures Find(t, id).Node?
    ensures var f := Find(t, id);
      f.left.Node? ==>
        (f.left.id in Ids(t) && Find(t, f.left.id) == f.left
         && Start(t, f.left.id) == Start(t, id) && End(t, f.left.id) == IndexOf(t, id))
  {
    FindIndex(t, id);
    match t
    case Node(l, i, _, r) =>
      if id != i {
        if id in Ids(l) {
          FindLeft(l, id);
          FindIndex(l, id);
        } else {
          FindLeft(r, id);
          FindIndex(r, id);
        }
      } else if l.Node? {
        FindRoot(l);
      }
  }

  /** The right child of node `id` spans from just after `id` up to where
      `id`'s subtree ends. */
  lemma {:induction false} FindRight<T>(t: Tree<T>, id: nat)
    requires Distinct(t) && id in Ids(t)
    ensures Find(t, id).Node?
    ensures var f := Find(t, id);
      f.right.Node? ==>
        (f.right.id in Ids(t) && Find(t, f.right.id) == f.right
         && Start(t, f.right.id) == IndexOf(t, id) + 1 && End(t, f.right.id) == End(t, id))
  {
    FindIndex(t, id);
    match t
    case Node(l, i, _, r) =>
      if id != i {
        if id in Ids(l) {
          FindRight(l, id);
          FindIndex(l, id);
        } else {
          FindRight(r, id);
          FindIndex(r, id);
        }
      } else if r.Node? {
        FindRoot(r);
      }
  }

  /** One step of a walk down from node `id` towards `x`: the link taken
      leads to the subtree on `x`'s side. */
  lemma StepDown<T>(cmp: (T, T) -> int, cells: map<nat, Cell<T>>, t: Tree<T>, id: nat, x: T)
    requires Linked(cells, t, Null) && Distinct(t) && id in Ids(t)
    ensures id in cells && Find(t, id).Node? && Find(t, id).id == id && cells[id].obj == Find(t, id).obj
    ensures var c := if cmp(x, cells[id].obj) > 0 then cells[id].right else cells[id].left;
      && (c == Null || (c.id in Ids(t) && c.id in cells && SubAt(t, c).Node? && SubAt(t, c).id == c.id
                        && cells[c.id].obj == SubAt(t, c).obj))
      && SubAt(t, c) == (if cmp(x, Find(t, id).obj) > 0 then Find(t, id).right else Find(t, id).left)
  {
    LinkedFind(cells, t, Null, id);
    FindLeft(t, id);
    FindRight(t, id);
    var c := if cmp(x, cells[id].obj) > 0 then cells[id].right else cells[id].left;
    if c.Ref? {
      LinkedFind(cells, t, Null, c.id);
    }
  }

  /** The parent link of node `id`: the root points up to `parent`, every
      other node to a node of `t` that has it as its left or right child. */
  lemma {:induction false} ParentLink<T>(cells: map<nat, Cell<T>>, t: Tree<T>, parent: Ptr, id: nat)
    requires Linked(cells, t, parent) && id in Ids(t)
    ensures id in cells && t.Node?
    ensures id == t.id ==> cells[id].parent == parent
    ensures id != t.id ==>
      var p := cells[id].parent;
      p.Ref? && p.id in Ids(t) && p.id in cells && (cells[p.id].left == Ref(id) || cells[p.id].right == Ref(id))
  {
    LinkedIds(cells, t, parent);
    match t
    case Node(l, i, _, r) =>
      if id != i {
        if id in Ids(l) {
          ParentLink(cells, l, Ref(i), id);
        } else {
          ParentLink(cells, r, Ref(i), id);
        }
      }
  }

  // ---- Order -----------------------------------------------------------------

  /** The laws of a Java `Comparator`: the sign flips with the arguments,
      "less" is transitive, and elements comparing 0 compare alike with
      everything. */
  ghost predicate IsComparator<T(!new)>(cmp: (T, T) -> int) {
    && (forall a, b :: cmp(a, b) < 0 <==> cmp(b, a) > 0)
    && (forall a, b, c :: cmp(a, b) < 0 && cmp(b, c) < 0 ==> cmp(a, c) < 0)
    && (forall a, b, c :: cmp(a, b) == 0 ==> (cmp(a, c) < 0 <==> cmp(b, c) < 0) && (cmp(a, c) > 0 <==> cmp(b, c) > 0))
  }

  /** Strictly ascending under `cmp`. */
  ghost predicate Ascending<T>(cmp: (T, T) -> int, s: seq<T>) {
    forall i, j :: 0 <= i < j < |s| ==> cmp(s[i], s[j]) < 0
  }

  /** Some element of `s` compares 0 with `x`. */
  ghost predicate Matches<T>(cmp: (T, T) -> int, s: seq<T>, x: T) {
    exists i :: 0 <= i < |s| && cmp(x, s[i]) == 0
  }

  /** The walk of `contains`: down from the root, right when `x` compares
      greater, left when less, until a node compares 0. */
  ghost function Search<T>(cmp: (T, T) -> int, t: Tree<T>, x: T): bool {
    match t
    case Nil => false
    case Node(l, _, v, r) =>
      var c := cmp(x, v);
      if c == 0 then true else if c > 0 then Search(cmp, r, x) else Search(cmp, l, x)
  }

  /** The walk of `getParentOrNode`: the node comparing 0 with `x`, or else
      the last node visited; `parent` for an empty tree. */
  ghost function Descend<T>(cmp: (T, T) -> int, t: Tree<T>, x: T, parent: Ptr): Ptr {
    match t
    case Nil => parent
    case Node(l, i, v, r) =>
      var c := cmp(x, v);
      if c == 0 then Ref(i) else if c > 0 then Descend(cmp, r, x, Ref(i)) else Descend(cmp, l, x, Ref(i))
  }

  /** The parts of an ascending `a + [v] + b` are ascending, and lie below
      and above `v`. */
  lemma AscendingParts<T>(cmp: (T, T) -> int, a: seq<T>, v: T, b: seq<T>)
    requires Ascending(cmp, a + [v] + b)
    ensures Ascending(cmp, a) && Ascending(cmp, b)
    ensures forall i :: 0 <= i < |a| ==> cmp(a[i], v) < 0
    ensures forall j :: 0 <= j < |b| ==> cmp(v, b[j]) < 0
  {
    var s := a + [v] + b;
    assert forall i :: 0 <= i < |a| ==> s[i] == a[i];
    assert forall j :: 0 <= j < |b| ==> s[|a| + 1 + j] == b[j];
    assert s[|a|] == v;
  }

  /** `x` matches an element of `a + [v] + b` exactly when it matches one of
      `a`, `v`, or one of `b`. */
  lemma MatchesParts<T>(cmp: (T, T) -> int, a: seq<T>, v: T, b: seq<T>, x: T)
    ensures Matches(cmp, a + [v] + b, x) <==> Matches(cmp, a, x) || cmp(x, v) == 0 || Matches(cmp, b, x)
  {
    var s := a + [v] + b;
    if Matches(cmp, s, x) {
      var i :| 0 <= i < |s| && cmp(x, s[i]) == 0;
      if i < |a| {
        assert s[i] == a[i];
      } else if |a| < i {
        assert s[i] == b[i - |a| - 1];
      }
    }
    if Matches(cmp, a, x) {
      var i :| 0 <= i < |a| && cmp(x, a[i]) == 0;
      assert s[i] == a[i];
    }
    if cmp(x, v) == 0 {
      assert s[|a|] == v;
    }
    if Matches(cmp, b, x) {
      var j :| 0 <= j < |b| && cmp(x, b[j]) == 0;
      assert s[|a| + 1 + j] == b[j];
    }
  }

  /** In a search tree the walk of `contains` finds `x` exactly when some
      element compares 0 with it. */
  lemma {:induction false} SearchMatches<T(!new)>(cmp: (T, T) -> int, t: Tree<T>, x: T)
    requires IsComparator(cmp) && Ascending(cmp, Values(t))
    ensures Search(cmp, t, x) <==> Matches(cmp, Values(t), x)
  {
    match t
    case Nil =>
    case Node(l, _, v, r) =>
      AscendingParts(cmp, Values(l), v, Values(r));
      MatchesParts(cmp, Values(l), v, Values(r), x);
      var c := cmp(x, v);
      if c > 0 {
        SearchMatches(cmp, r, x);
      } else if c < 0 {
        SearchMatches(cmp, l, x);
      }
  }

  /** On a non-empty tree the walk of `getParentOrNode` ends at a node of the
      tree; that node compares 0 with `x` exactly when `contains` finds `x`,
      and otherwise has no child on the side `x` would go. */
  lemma {:induction false} DescendEnds<T>(cmp: (T, T) -> int, t: Tree<T>, x: T, parent: Ptr)
    requires Distinct(t) && t.Node?
    ensures Descend(cmp, t, x, parent).Ref? && Descend(cmp, t, x, parent).id in Ids(t)
    ensures var f := Find(t, Descend(cmp, t, x, parent).id);
      f.Node? && (Search(cmp, t, x) <==> cmp(x, f.obj) == 0)
    ensures var f := Find(t, Descend(cmp, t, x, parent).id);
      !Search(cmp, t, x) ==> f.Node? && (if cmp(x, f.obj) > 0 then f.right.Nil? else f.left.Nil?)
  {
    match t
    case Node(l, i, v, r) =>
      var c := cmp(x, v);
      if c > 0 && r.Node? {
        DescendEnds(cmp, r, x, Ref(i));
      } else if c < 0 && l.Node? {
        DescendEnds(cmp, l, x, Ref(i));
      }
  }

  // ---- Insertion ---------------------------------------------------------------

  /** `t` with a new leaf `id` holding `x` where the walk for `x` ends:
      right of a node `x` compares greater with, left otherwise. */
  ghost function Ins<T>(cmp: (T, T) -> int, t: Tree<T>, x: T, id: nat): Tree<T> {
    match t
    case Nil => Node(Nil, id, x, Nil)
    case Node(l, i, v, r) => if cmp(x, v) > 0 then Node(l, i, v, Ins(cmp, r, x, id)) else Node(Ins(cmp, l, x, id), i, v, r)
  }

  /** Insertion adds one node and keeps the root of a non-empty tree. */
  lemma {:induction false} InsSize<T>(cmp: (T, T) -> int, t: Tree<T>, x: T, id: nat)
    ensures |Order(Ins(cmp, t, x, id))| == |Order(t)| + 1
    ensures RootOf(Ins(cmp, t, x, id)) == if t.Nil? then Ref(id) else RootOf(t)
  {
    match t
    case Nil =>
    case Node(l, i, v, r) =>
      if cmp(x, v) > 0 {
        InsSize(cmp, r, x, id);
      } else {
        InsSize(cmp, l, x, id);
      }
  }

  /** Insertion adds `x` to the elements and nothing else. */
  lemma {:induction false} InsValues<T>(cmp: (T, T) -> int, t: Tree<T>, x: T, id: nat)
    ensures multiset(Values(Ins(cmp, t, x, id))) == multiset(Values(t)) + multiset{x}
  {
    match t
    case Nil =>
    case Node(l, i, v, r) =>
      if cmp(x, v) > 0 {
        InsValues(cmp, r, x, id);
        assert Values(Ins(cmp, t, x, id)) == Values(l) + [v] + Values(Ins(cmp, r, x, id));
      } else {
        InsValues(cmp, l, x, id);
        assert Values(Ins(cmp, t, x, id)) == Values(Ins(cmp, l, x, id)) + [v] + Values(r);
      }
  }

  /** Insertion of a fresh id adds that id and keeps ids distinct. */
  lemma {:induction false} InsIds<T>(cmp: (T, T) -> int, t: Tree<T>, x: T, id: nat)
    requires Distinct(t) && id !in Ids(t)
    ensures Ids(Ins(cmp, t, x, id)) == Ids(t) + {id}
    ensures Distinct(Ins(cmp, t, x, id))
  {
    match t
    case Nil =>
    case Node(l, i, v, r) =>
      if cmp(x, v) > 0 {
        InsIds(cmp, r, x, id);
      } else {
        InsIds(cmp, l, x, id);
      }
  }

  /** Ascending parts below and above `v` make an ascending whole. */
  lemma AscendingJoin<T(!new)>(cmp: (T, T) -> int, a: seq<T>, v: T, b: seq<T>)
    requires IsComparator(cmp) && Ascending(cmp, a) && Ascending(cmp, b)
    requires forall i :: 0 <= i < |a| ==> cmp(a[i], v) < 0
    requires forall j :: 0 <= j < |b| ==> cmp(v, b[j]) < 0
    ensures Ascending(cmp, a + [v] + b)
  {
    var s := a + [v] + b;
    forall i, j | 0 <= i < j < |s|
      ensures cmp(s[i], s[j]) < 0
    {
      if i < |a| && |a| < j {
        assert cmp(s[i], v) < 0 && cmp(v, s[j]) < 0;
      }
    }
  }

  /** Inserting an element no element matches keeps a search tree
      ascending. */
  lemma {:induction false} InsAscending<T(!new)>(cmp: (T, T) -> int, t: Tree<T>, x: T, id: nat)
    requires IsComparator(cmp) && Ascending(cmp, Values(t)) && !Matches(cmp, Values(t), x)
    ensures Ascending(cmp, Values(Ins(cmp, t, x, id)))
  {
    match t
    case Nil =>
    case Node(l, i, v, r) =>
      AscendingParts(cmp, Values(l), v, Values(r));
      MatchesParts(cmp, Values(l), v, Values(r), x);
      if cmp(x, v) > 0 {
        InsAscending(cmp, r, x, id);
        InsValues(cmp, r, x, id);
        var b := Values(Ins(cmp, r, x, id));
        forall j | 0 <= j < |b|
          ensures cmp(v, b[j]) < 0
        {
          assert b[j] in multiset(Values(r)) + multiset{x};
        }
        AscendingJoin(cmp, Values(l), v, b);
      } else {
        InsAscending(cmp, l, x, id);
        InsValues(cmp, l, x, id);
        var a := Values(Ins(cmp, l, x, id));
        forall k | 0 <= k < |a|
          ensures cmp(a[k], v) < 0
        {
          assert a[k] in multiset(Values(l)) + multiset{x};
        }
        AscendingJoin(cmp, a, v, Values(r));
      }
  }

  /** Inserting a fresh id, for an element the walk does not find, into a
      search tree gives a search tree with one more node and `x` added to
      the elements. */
  lemma InsSearchTree<T(!new)>(cmp: (T, T) -> int, t: Tree<T>, x: T, id: nat)
    requires IsComparator(cmp) && Ascending(cmp, Values(t)) && Distinct(t) && id !in Ids(t)
    requires !Search(cmp, t, x)
    ensures !Matches(cmp, Values(t), x)
    ensures Distinct(Ins(cmp, t, x, id)) && Ids(Ins(cmp, t, x, id)) == Ids(t) + {id}
    ensures |Order(Ins(cmp, t, x, id))| == |Order(t)| + 1
    ensures Ascending(cmp, Values(Ins(cmp, t, x, id)))
    ensures multiset(Values(Ins(cmp, t, x, id))) == multiset(Values(t)) + multiset{x}
  {
    SearchMatches(cmp, t, x);
    InsValues(cmp, t, x, id);
    InsAscending(cmp, t, x, id);
    InsIds(cmp, t, x, id);
    InsSize(cmp, t, x, id);
  }

  /** The arena after `addAfterParent` links a new node `id` holding `x`
      below node `q`: on `q`'s right when `x` compares greater with `q`'s
      element, on its left otherwise. */
  ghost function Attached<T>(cmp: (T, T) -> int, cells: map<nat, Cell<T>>, q: nat, x: T, id: nat): map<nat, Cell<T>>
    requires q in cells
  {
    var c := cells[q];
    var c' := if cmp(x, c.obj) > 0 then c.(right := Ref(id)) else c.(left := Ref(id));
    cells[q := c'][id := Cell(x, Ref(q), Null, Null)]
  }

  /** Attaching a node outside `s` leaves the links of `s` as they were. */
  lemma AttachedFrame<T>(cmp: (T, T) -> int, cells: map<nat, Cell<T>>, q: nat, x: T, id: nat, s: Tree<T>, parent: Ptr)
    requires q in cells && Linked(cells, s, parent) && q !in Ids(s) && id !in Ids(s)
    ensures Linked(Attached(cmp, cells, q, x, id), s, parent)
  {
    LinkedIds(cells, s, parent);
    LinkedFrame(cells, Attached(cmp, cells, q, x, id), s, parent);
  }

  /** Linking a fresh node below the end of the walk for `x` links the tree
      with `x` inserted. */
  lemma {:induction false} InsLinked<T>(cmp: (T, T) -> int, cells: map<nat, Cell<T>>, t: Tree<T>, x: T, id: nat, parent: Ptr)
    requires Linked(cells, t, parent) && Distinct(t) && t.Node? && !Search(cmp, t, x) && id !in Ids(t)
    ensures Descend(cmp, t, x, parent).Ref? && Descend(cmp, t, x, parent).id in cells
    ensures Linked(Attached(cmp, cells, Descend(cmp, t, x, parent).id, x, id), Ins(cmp, t, x, id), parent)
  {
    LinkedIds(cells, t, parent);
    DescendEnds(cmp, t, x, parent);
    var q := Descend(cmp, t, x, parent).id;
    match t
    case Node(l, i, v, r) =>
      if cmp(x, v) > 0 {
        if r.Node? {
          DescendEnds(cmp, r, x, Ref(i));
          AttachedFrame(cmp, cells, q, x, id, l, Ref(i));
          InsLinked(cmp, cells, r, x, id, Ref(i));
          InsSize(cmp, r, x, id);
        } else {
          AttachedFrame(cmp, cells, q, x, id, l, Ref(i));
        }
      } else {
        if l.Node? {
          DescendEnds(cmp, l, x, Ref(i));
          AttachedFrame(cmp, cells, q, x, id, r, Ref(i));
          InsLinked(cmp, cells, l, x, id, Ref(i));
          InsSize(cmp, l, x, id);
        } else {
          AttachedFrame(cmp, cells, q, x, id, r, Ref(i));
        }
      }
  }

  // ---- Removal -----------------------------------------------------------------

  /** `t` with node `n` replaced by its left child, or by its right child
      when it has no left one. */
  ghost function Splice<T>(t: Tree<T>, n: nat): Tree<T> {
    match t
    case Nil => Nil
    case Node(l, i, v, r) =>
      if i == n then (if l.Nil? then r else l)
      else if n in Ids(l) then Node(Splice(l, n), i, v, r)
      else Node(l, i, v, Splice(r, n))
  }

  /** `t` with node `n` holding `w` instead. */
  ghost function SetObj<T>(t: Tree<T>, n: nat, w: T): Tree<T> {
    match t
    case Nil => Nil
    case Node(l, i, v, r) =>
      if i == n then Node(l, i, w, r)
      else if n in Ids(l) then Node(SetObj(l, n, w), i, v, r)
      else Node(l, i, v, SetObj(r, n, w))
  }

  /** The child `removeNonJunction` moves up: the left one if there is one. */
  function ChildOf<T>(c: Cell<T>): Ptr {
    if c.left != Null then c.left else c.right
  }

  /** The cells `removeNonJunction` touches are in the arena. */
  ghost predicate Unlinkable<T>(cells: map<nat, Cell<T>>, n: nat) {
    && n in cells
    && (cells[n].parent.Ref? ==> cells[n].parent.id in cells)
    && (ChildOf(cells[n]).Ref? ==> ChildOf(cells[n]).id in cells)
  }

  /** The arena after `removeNonJunction(n)`: the parent's link to `n` now
      leads to `n`'s child, the child's parent link to `n`'s parent, and `n`
      itself is gone. */
  ghost function Unlinked<T>(cells: map<nat, Cell<T>>, n: nat): map<nat, Cell<T>>
    requires Unlinkable(cells, n)
  {
    var c := cells[n];
    var child := ChildOf(c);
    var m := if c.parent == Null then cells
      else var pc := cells[c.parent.id];
        cells[c.parent.id := if pc.left == Ref(n) then pc.(left := child) else pc.(right := child)];
    var m' := if child == Null then m else m[child.id := m[child.id].(parent := c.parent)];
    m' - {n}
  }

  /** Removing position `k` from `a + [v] + b` inside `a`. */
  lemma RemoveAtLeft<X>(a: seq<X>, v: X, b: seq<X>, k: nat)
    requires k < |a|
    ensures RemoveAt(a + [v] + b, k) == RemoveAt(a, k) + [v] + b
  {
  }

  /** Removing position `|a| + 1 + k` from `a + [v] + b` inside `b`. */
  lemma RemoveAtRight<X>(a: seq<X>, v: X, b: seq<X>, k: nat)
    requires k < |b|
    ensures RemoveAt(a + [v] + b, |a| + 1 + k) == a + [v] + RemoveAt(b, k)
  {
    assert (a + [v] + b)[..|a| + 1 + k] == a + [v] + b[..k];
    assert (a + [v] + b)[|a| + 1 + k + 1..] == b[k + 1..];
  }

  /** Splicing out a node with at most one child removes exactly its place
      in the order. */
  lemma {:induction false} SpliceOrder<T>(t: Tree<T>, n: nat)
    requires n in Ids(t) && Find(t, n).Node? && (Find(t, n).left.Nil? || Find(t, n).right.Nil?)
    ensures IndexOf(t, n) < |Order(t)|
    ensures Order(Splice(t, n)) == RemoveAt(Order(t), IndexOf(t, n))
  {
    IndexOfOrder(t, n);
    match t
    case Node(l, i, v, r) =>
      if i == n {
        if l.Nil? {
          assert Order(t) == [i] + Order(r);
        }
      } else if n in Ids(l) {
        SpliceOrder(l, n);
        RemoveAtLeft(Order(l), i, Order(r), IndexOf(l, n));
      } else {
        SpliceOrder(r, n);
        RemoveAtRight(Order(l), i, Order(r), IndexOf(r, n));
      }
  }

  /** ... and exactly its element from the values. */
  lemma {:induction false} SpliceValues<T>(t: Tree<T>, n: nat)
    requires n in Ids(t) && Find(t, n).Node? && (Find(t, n).left.Nil? || Find(t, n).right.Nil?)
    ensures IndexOf(t, n) < |Values(t)|
    ensures Values(Splice(t, n)) == RemoveAt(Values(t), IndexOf(t, n))
  {
    IndexOfOrder(t, n);
    match t
    case Node(l, i, v, r) =>
      OrderIds(l);
      if i == n {
        if l.Nil? {
          assert Values(t) == [v] + Values(r);
        }
      } else if n in Ids(l) {
        SpliceValues(l, n);
        RemoveAtLeft(Values(l), v, Values(r), IndexOf(l, n));
      } else {
        SpliceValues(r, n);
        RemoveAtRight(Values(l), v, Values(r), IndexOf(r, n));
      }
  }

  /** Splicing out `n` removes exactly the id `n`. */
  lemma {:induction false} SpliceIds<T>(t: Tree<T>, n: nat)
    requires Distinct(t) && n in Ids(t)
    requires Find(t, n).Node? && (Find(t, n).left.Nil? || Find(t, n).right.Nil?)
    ensures Ids(Splice(t, n)) == Ids(t) - {n}
    ensures Distinct(Splice(t, n))
  {
    match t
    case Node(l, i, v, r) =>
      if i != n {
        if n in Ids(l) {
          SpliceIds(l, n);
        } else {
          SpliceIds(r, n);
        }
      }
  }

  /** `removeNonJunction` at the root of `t`. */
  lemma SpliceTop<T>(cells: map<nat, Cell<T>>, t: Tree<T>, parent: Ptr)
    requires Linked(cells, t, parent) && Distinct(t) && t.Node? && (t.left.Nil? || t.right.Nil?)
    requires parent.Ref? ==> parent.id in cells && parent.id !in Ids(t)
    ensures Unlinkable(cells, t.id)
    ensures Linked(Unlinked(cells, t.id), Splice(t, t.id), parent)
    ensures RootOf(Splice(t, t.id)) == ChildOf(cells[t.id])
  {
    LinkedIds(cells, t, parent);
    var s := Splice(t, t.id);
    if s.Node? {
      var cells' := Unlinked(cells, t.id);
      assert s.id in Ids(t) && s.id != t.id;
      LinkedIds(cells, s, Ref(t.id));
      LinkedFrame(cells, cells', s.left, Ref(s.id));
      LinkedFrame(cells, cells', s.right, Ref(s.id));
    }
  }

  /** `removeNonJunction(n)` on a node with at most one child links the
      tree with `n` spliced out; the root changes only when `n` was it. */
  lemma {:induction false} SpliceLinked<T>(cells: map<nat, Cell<T>>, t: Tree<T>, parent: Ptr, n: nat)
    requires Linked(cells, t, parent) && Distinct(t) && n in Ids(t)
    requires Find(t, n).Node? && (Find(t, n).left.Nil? || Find(t, n).right.Nil?)
    requires parent.Ref? ==> parent.id in cells && parent.id !in Ids(t)
    ensures Unlinkable(cells, n)
    ensures Linked(Unlinked(cells, n), Splice(t, n), parent)
    ensures RootOf(Splice(t, n)) == if n == t.id then ChildOf(cells[n]) else RootOf(t)
  {
    LinkedIds(cells, t, parent);
    match t
    case Node(l, i, v, r) =>
      if i == n {
        SpliceTop(cells, t, parent);
      } else if n in Ids(l) {
        SpliceUnder(cells, l, i, n);
        SpliceLinked(cells, l, Ref(i), n);
        LinkedFrame(cells, Unlinked(cells, n), r, Ref(i));
      } else {
        SpliceUnder(cells, r, i, n);
        SpliceLinked(cells, r, Ref(i), n);
        LinkedFrame(cells, Unlinked(cells, n), l, Ref(i));
      }
  }

  /** Where the cells `removeNonJunction(n)` touches lie, for `n` inside a
      child `s` of node `i`: all inside `s` except possibly `i` itself, whose
      link to `s` then leads to `n`'s child. */
  lemma SpliceUnder<T>(cells: map<nat, Cell<T>>, s: Tree<T>, i: nat, n: nat)
    requires Linked(cells, s, Ref(i)) && Distinct(s) && n in Ids(s) && i in cells && i !in Ids(s)
    ensures Unlinkable(cells, n)
    ensures ChildOf(cells[n]) == Null || ChildOf(cells[n]).id in Ids(s)
    ensures cells[n].parent == Ref(i) || (cells[n].parent.Ref? && cells[n].parent.id in Ids(s))
    ensures cells[n].parent == Ref(i) <==> n == s.id
    ensures n != s.id ==> RootOf(Splice(s, n)) == RootOf(s)
    ensures n == s.id ==> RootOf(Splice(s, n)) == ChildOf(cells[n])
  {
    LinkedIds(cells, s, Ref(i));
    ParentLink(cells, s, Ref(i), n);
    LinkedFind(cells, s, Ref(i), n);
    FindIndex(s, n);
  }

  /** What `removeNonJunction(n)` does to a whole tree: the arena stays in
      step with `t` with `n` spliced out, whose order and values lose `n`'s
      place; the root changes only when `n` had no parent. */
  lemma NonJunctionRemoval<T>(cells: map<nat, Cell<T>>, t: Tree<T>, n: nat)
    requires Linked(cells, t, Null) && Distinct(t) && cells.Keys == Ids(t) && n in cells
    requires cells[n].left == Null || cells[n].right == Null
    ensures Unlinkable(cells, n)
    ensures var s := Splice(t, n);
      && Linked(Unlinked(cells, n), s, Null) && Distinct(s)
      && Unlinked(cells, n).Keys == Ids(s)
      && RootOf(s) == (if cells[n].parent == Null then ChildOf(cells[n]) else RootOf(t))
    ensures IndexOf(t, n) < |Order(t)| == |Values(t)|
    ensures Order(Splice(t, n)) == RemoveAt(Order(t), IndexOf(t, n))
    ensures Values(Splice(t, n)) == RemoveAt(Values(t), IndexOf(t, n))
  {
    LinkedFind(cells, t, Null, n);
    IndexOfOrder(t, n);
    SpliceLinked(cells, t, Null, n);
    SpliceIds(t, n);
    ParentLink(cells, t, Null, n);
    SpliceOrder(t, n);
    SpliceValues(t, n);
  }

  /** Changing an element keeps the nodes and their order. */
  lemma {:induction false} SetObjShape<T>(t: Tree<T>, n: nat, w: T)
    ensures Order(SetObj(t, n, w)) == Order(t) && Ids(SetObj(t, n, w)) == Ids(t)
    ensures RootOf(SetObj(t, n, w)) == RootOf(t)
    ensures Distinct(t) ==> Distinct(SetObj(t, n, w))
  {
    match t
    case Nil =>
    case Node(l, i, v, r) =>
      SetObjShape(l, n, w);
      SetObjShape(r, n, w);
  }

  /** Updating place `k` of `a + [v] + b` inside `a`. */
  lemma UpdateLeft<X>(a: seq<X>, v: X, b: seq<X>, k: nat, w: X)
    requires k < |a|
    ensures (a + [v] + b)[k := w] == a[k := w] + [v] + b
  {
  }

  /** Updating place `|a| + 1 + k` of `a + [v] + b` inside `b`. */
  lemma UpdateRight<X>(a: seq<X>, v: X, b: seq<X>, k: nat, w: X)
    requires k < |b|
    ensures (a + [v] + b)[|a| + 1 + k := w] == a + [v] + b[k := w]
  {
  }

  /** Changing node `n`'s element changes that one place of the values. */
  lemma {:induction false} SetObjValues<T>(t: Tree<T>, n: nat, w: T)
    requires n in Ids(t)
    ensures IndexOf(t, n) < |Values(t)|
    ensures Values(SetObj(t, n, w)) == Values(t)[IndexOf(t, n) := w]
  {
    IndexOfOrder(t, n);
    match t
    case Node(l, i, v, r) =>
      OrderIds(l);
      if i == n {
        assert Values(t)[|Values(l)| := w] == Values(l) + [w] + Values(r);
      } else if n in Ids(l) {
        SetObjValues(l, n, w);
        UpdateLeft(Values(l), v, Values(r), IndexOf(l, n), w);
      } else {
        SetObjValues(r, n, w);
        UpdateRight(Values(l), v, Values(r), IndexOf(r, n), w);
      }
  }

  /** Setting the element in node `n`'s cell links the tree with the element
      changed. */
  lemma {:induction false} SetObjLinked<T>(cells: map<nat, Cell<T>>, t: Tree<T>, parent: Ptr, n: nat, w: T)
    requires Linked(cells, t, parent) && Distinct(t) && n in Ids(t)
    ensures n in cells
    ensures Linked(cells[n := cells[n].(obj := w)], SetObj(t, n, w), parent)
  {
    LinkedIds(cells, t, parent);
    var cells' := cells[n := cells[n].(obj := w)];
    match t
    case Node(l, i, v, r) =>
      SetObjShape(l, n, w);
      SetObjShape(r, n, w);
      LinkedIds(cells, l, Ref(i));
      LinkedIds(cells, r, Ref(i));
      if i == n {
        LinkedFrame(cells, cells', l, Ref(i));
        LinkedFrame(cells, cells', r, Ref(i));
      } else if n in Ids(l) {
        SetObjLinked(cells, l, Ref(i), n, w);
        LinkedFrame(cells, cells', r, Ref(i));
      } else {
        SetObjLinked(cells, r, Ref(i), n, w);
        LinkedFrame(cells, cells', l, Ref(i));
      }
  }

  /** Overwriting place `k` with its predecessor and then dropping the
      predecessor drops place `k`: what `removeJunction` does to the values. */
  lemma JunctionValues<X>(s: seq<X>, k: nat)
    requires 0 < k < |s|
    ensures RemoveAt(s[k := s[k - 1]], k - 1) == RemoveAt(s, k)
  {
    var s' := s[k := s[k - 1]];
    assert s'[..k - 1] == s[..k - 1];
    assert s'[k..] == [s[k - 1]] + s[k + 1..];
    assert s[..k] == s[..k - 1] + [s[k - 1]];
  }

  /** Dropping a place keeps a sequence ascending. */
  lemma AscendingRemoveAt<T>(cmp: (T, T) -> int, s: seq<T>, k: nat)
    requires Ascending(cmp, s) && k < |s|
    ensures Ascending(cmp, RemoveAt(s, k))
  {
    var s' := RemoveAt(s, k);
    forall i, j | 0 <= i < j < |s'|
      ensures cmp(s'[i], s'[j]) < 0
    {
      RemoveAtShifts(s, k, i);
      RemoveAtShifts(s, k, j);
    }
  }

  /** What `removeJunction(n)` does to the tree: node `n` takes the element
      of its predecessor `g`, which has no right child, and `g` is then
      spliced out. The order loses `g`, the values lose `n`'s element. */
  lemma JunctionRemoval<T>(cells: map<nat, Cell<T>>, t: Tree<T>, n: nat, g: nat)
    requires Linked(cells, t, Null) && Distinct(t) && n in Ids(t) && g in Ids(t)
    requires g in cells && cells[g].right == Null && IndexOf(t, g) + 1 == IndexOf(t, n)
    ensures n in cells && IndexOf(t, n) < |Order(t)| == |Values(t)|
    ensures var mid := SetObj(t, n, cells[g].obj);
      && Linked(cells[n := cells[n].(obj := cells[g].obj)], mid, Null)
      && Distinct(mid) && Ids(mid) == Ids(t) && RootOf(mid) == RootOf(t)
      && g in Ids(mid) && Find(mid, g).Node? && Find(mid, g).right.Nil?
      && Order(Splice(mid, g)) == RemoveAt(Order(t), IndexOf(t, n) - 1)
      && Values(Splice(mid, g)) == RemoveAt(Values(t), IndexOf(t, n))
  {
    LinkedIds(cells, t, Null);
    var w := cells[g].obj;
    var mid := SetObj(t, n, w);
    var cells' := cells[n := cells[n].(obj := w)];
    IndexOfOrder(t, n);
    IndexOfOrder(t, g);
    LinkedFind(cells, t, Null, g);
    SetObjLinked(cells, t, Null, n, w);
    SetObjShape(t, n, w);
    SetObjValues(t, n, w);
    LinkedFind(cells', mid, Null, g);
    OrderIndexOf(mid, IndexOf(t, g));
    SpliceOrder(mid, g);
    SpliceValues(mid, g);
    JunctionValues(Values(t), IndexOf(t, n));
  }

  /** In an ascending sequence only one element matches `x`: once it is
      dropped, none does. */
  lemma AscendingUnique<T(!new)>(cmp: (T, T) -> int, s: seq<T>, k: nat, x: T)
    requires IsComparator(cmp) && Ascending(cmp, s) && k < |s| && cmp(x, s[k]) == 0
    ensures !Matches(cmp, RemoveAt(s, k), x)
  {
    var s' := RemoveAt(s, k);
    forall j | 0 <= j < |s'|
      ensures cmp(x, s'[j]) != 0
    {
      RemoveAtShifts(s, k, j);
      var i := if j < k then j else j + 1;
      assert s'[j] == s[i] && i != k;
      if i < k {
        assert cmp(s[i], s[k]) < 0;
      } else {
        assert cmp(s[k], s[i]) < 0;
      }
    }
  }

  /** Every element matches itself. */
  lemma MatchesItself<T(!new)>(cmp: (T, T) -> int, s: seq<T>, x: T)
    requires IsComparator(cmp) && multiset(s)[x] > 0
    ensures Matches(cmp, s, x)
  {
    var i :| 0 <= i < |s| && s[i] == x;
    assert cmp(x, s[i]) == 0;
  }
}
