/** splay_insert and splay_delete on the global tree, with the list of recycled nodes. */
module RegionIndex {
  import opened Words
  import opened Regions
  import opened SplayTree

  // Insertion at a splayed root

  ghost function Planted(s: Shape, x: Node, g: Region): Shape {
    match s
    case Leaf => Branch(Leaf, x, g, Leaf)
    case Branch(l, t, h, r) =>
      if g.start < h.start then Branch(l, x, g, Branch(Leaf, t, h, r)) else Branch(Branch(l, t, h, Leaf), x, g, r)
  }

  lemma PlantedRoot(s: Shape, x: Node, g: Region)
    ensures Planted(s, x, g).Branch? && Planted(s, x, g).node == x && Planted(s, x, g).region == g
  {}

  /** The old root as it hangs below the planted node. */
  ghost function Pushed(s: Shape, g: Region): Shape
    requires s.Branch?
  {
    if g.start < s.region.start
    then Branch(Leaf, s.node, s.region, s.right)
    else Branch(s.left, s.node, s.region, Leaf)
  }

  lemma PlantedNodes(s: Shape, x: Node, g: Region)
    requires Proper(s) && x !in Nodes(s)
    ensures Proper(Planted(s, x, g)) && Nodes(Planted(s, x, g)) == Nodes(s) + {x}
  {}

  /** more is less with c put in at one place: the order of the others is untouched. */
  ghost predicate OneMore(less: seq<Cell>, c: Cell, more: seq<Cell>) {
    exists i :: 0 <= i <= |less| && more == less[..i] + [c] + less[i..]
  }

  lemma OneMoreBetween(a: seq<Cell>, c: Cell, b: seq<Cell>)
    ensures OneMore(a + b, c, a + [c] + b)
  {
    assert (a + b)[..|a|] == a && (a + b)[|a|..] == b;
  }

  lemma PlantedOrder(s: Shape, x: Node, g: Region)
    ensures OneMore(Order(s), Cell(x, g), Order(Planted(s, x, g)))
  {
    if s.Leaf? {
      OneMoreBetween([], Cell(x, g), []);
    } else {
      var a, m, b := Order(s.left), [Cell(s.node, s.region)], Order(s.right);
      if g.start < s.region.start {
        OneMoreBetween(a, Cell(x, g), m + b);
        assert Order(s) == a + (m + b) && Order(Pushed(s, g)) == m + b;
      } else {
        OneMoreBetween(a + m, Cell(x, g), b);
        assert Order(Pushed(s, g)) == a + m;
      }
    }
  }

  lemma PlantedRegs(s: Shape, x: Node, g: Region)
    ensures Regs(Planted(s, x, g)) == Regs(s) + {g}
  {
    if s.Branch? { assert Regs(Pushed(s, g)) + Regs(s.left) + Regs(s.right) == Regs(s); }
  }

  /** Insertion tests only the start address of the new region. The tree stays a tree of
      disjoint regions exactly when no region in it is touched by the new one. */
  lemma PlantedSearch(s: Shape, x: Node, g: Region)
    requires Search(s) ==> Cloven(Containing(g.start), s)
    ensures Search(Planted(s, x, g)) <==> Search(s) && Clear(Regs(s), g)
  {
    if s.Branch? {
      if Search(Planted(s, x, g)) { PlantedOnlyIfClear(s, x, g); }
      if Search(s) && Clear(Regs(s), g) { PlantedIfClear(s, x, g); }
    }
  }

  lemma PlantedOnlyIfClear(s: Shape, x: Node, g: Region)
    requires s.Branch? && Search(Planted(s, x, g))
    ensures Search(s) && Clear(Regs(s), g)
  {
    assert s.region in Regs(Pushed(s, g));
    if g.start < s.region.start {
      forall h <- Regs(s.left) ensures Before(h, s.region) { assert Before(h, g) && Before(g, s.region); }
    } else {
      forall h <- Regs(s.right) ensures Before(s.region, h) { assert Before(s.region, g) && Before(g, h); }
    }
  }

  lemma PlantedIfClear(s: Shape, x: Node, g: Region)
    requires s.Branch? && Search(s) && Cloven(Containing(g.start), s) && Clear(Regs(s), g)
    ensures Search(Planted(s, x, g))
  {}

  /** Ten bytes from 4090 on, inserted beside a region at 4096: the start is not covered, and the tree is
      no search tree of disjoint regions any more. */
  lemma OverlapPlanted(t: Node, x: Node)
    ensures var s, g := Branch(Leaf, t, Region(4096, 8, NoKind, false), Leaf), Region(4090, 10, NoKind, false);
      && Search(s) && Cloven(Containing(g.start), s) && !Covered(Regs(s), g.start) && !Search(Planted(s, x, g))
  {
    var h := Region(4096, 8, NoKind, false);
    var s := Branch(Leaf, t, h, Leaf);
    assert Regs(s) == {h};
    PlantedSearch(s, x, Region(4090, 10, NoKind, false));
  }

  // Deletion of a splayed root

  lemma RootIsRegion(s: Shape)
    ensures s.Branch? ==> s.region in Regs(s)
  {}

  /** Re-splaying the left subtree at the root's own key leaves its new root without a right child. */
  lemma JoinHasNoRight(s: Shape, l: Shape)
    requires s.Branch? && Search(s) && Regs(l) == Regs(s.left) && Cloven(Containing(s.region.start), l)
    ensures l.Branch? ==> l.right == Leaf
  {}

  lemma JoinedRegs(s: Shape)
    requires s.Branch? && Search(s)
    ensures Regs(s) - {s.region} == Regs(s.left) + Regs(s.right)
  {}

  lemma JoinedFacts(s: Shape, l: Shape)
    requires s.Branch? && l.Branch? && l.right == Leaf && Proper(s) && Search(s)
    requires Splayed(Containing(s.region.start), s.left, l)
    ensures var j := Branch(l.left, l.node, l.region, s.right);
      && Proper(j) && Nodes(j) == Nodes(s) - {s.node}
      && Search(j) && Regs(j) == Regs(s) - {s.region}
      && Order(j) == Order(s.left) + Order(s.right)
  {
    assert Nodes(l) == Nodes(l.left) + {l.node};
    assert Regs(l) == Regs(l.left) + {l.region};
    assert Order(l) == Order(l.left) + [Cell(l.node, l.region)];
    JoinedRegs(s);
    forall h <- Regs(s.right) ensures Before(l.region, h) {
      assert Before(l.region, s.region) && Before(s.region, h);
    }
  }

  /** Marking a region's data keeps the tree. */
  ghost function Marked(s: Shape, g: Region): Shape
    requires s.Branch?
  {
    s.(region := g)
  }

  /** The region at the root is at no other node. */
  ghost predicate RootOnce(s: Shape) {
    s.Branch? ==> s.region !in Regs(s.left) && s.region !in Regs(s.right)
  }

  lemma SearchRootOnce(s: Shape)
    requires Search(s)
    ensures RootOnce(s)
  {}

  lemma PlantedRootOnce(s: Shape, x: Node, g: Region)
    requires Search(s) && !Covered(Regs(s), g.start)
    ensures RootOnce(Planted(s, x, g))
  {
    SearchWellFormed(s);
    assert g !in Regs(s);
  }

  lemma MarkedFacts(s: Shape, g: Region)
    requires s.Branch? && RootOnce(s) && g.start == s.region.start && g.size == s.region.size
    ensures (Search(Marked(s, g)) <==> Search(s)) && Nodes(Marked(s, g)) == Nodes(s)
    ensures Regs(Marked(s, g)) == Regs(s) - {s.region} + {g}
  {}

  /** n heads the list of recycled nodes, threaded through the left links. */
  ghost predicate FreeList(n: Node?, spare: seq<Node>)
    reads spare
  {
    if spare == [] then n == null else n == spare[0] && FreeList(n.left, spare[1..])
  }

  lemma NodesOfBranch(s: Shape)
    ensures s.Branch? <==> Nodes(s) != {}
  {}

  /** The new node x takes the root's place, with the old tree t below it. */
  method Relink(x: Node, g: Region, t: Node?, ghost s: Shape)
    requires Rep(t, s) && Proper(s) && x !in Nodes(s)
    modifies x, Nodes(s)
    ensures Rep(x, Planted(s, x, g))
  {
    if t == null {
      x.left, x.right := null, null;
    } else if Compare(Containing(g.start), t.region) < 0 {
      assert Rep(t.left, s.left) && Rep(t.right, s.right);
      x.left, x.right := t.left, t;
      t.left := null;
    } else {
      assert Rep(t.left, s.left) && Rep(t.right, s.right);
      x.right, x.left := t.right, t;
      t.right := null;
    }
    x.region := g;
    assert t == null || Rep(t, Pushed(s, g));
  }

  class Index {
    var tree: Node?
    var spareList: Node?
    ghost var shape: Shape
    ghost var spare: seq<Node>

    /** Every node ever allocated: in the tree or on the list of recycled nodes. */
    ghost function Owned(): set<Node>
      reads this
    {
      Nodes(shape) + set n | n in spare
    }

    ghost function Regions(): set<Region>
      reads this
    {
      Regs(shape)
    }

    /** The nodes form a tree and a list. */
    ghost predicate Formed()
      reads this, Owned()
    {
      && Rep(tree, shape) && Proper(shape)
      && FreeList(spareList, spare)
      && (forall i, j :: 0 <= i < j < |spare| ==> spare[i] != spare[j])
      && (forall n <- spare :: n !in Nodes(shape))
    }

    /** And the tree is a search tree of disjoint regions. */
    ghost predicate Valid()
      reads this, Owned()
    {
      Formed() && Search(shape)
    }

    constructor ()
      ensures Valid() && Regions() == {} && Owned() == {}
    {
      tree, spareList, shape, spare := null, null, Leaf, [];
    }

    method Seek(k: Key)
      requires Formed()
      modifies this`tree, this`shape, Nodes(shape)`left, Nodes(shape)`right
      ensures Formed() && Splayed(k, old(shape), shape) && Owned() == old(Owned())
      ensures tree == null <==> old(tree) == null
    {
      hide Search, Proper, Order;
      NodesAllocated(shape);
      NodesOfBranch(shape);
      tree, shape := Splay(k, tree, shape);
      NodesOfBranch(shape);
    }

    method TakeNode(g: Region) returns (x: Node)
      requires Formed()
      modifies this`spareList, this`spare
      ensures Formed() && x !in Owned() && shape == old(shape)
      ensures if old(spare) == [] then fresh(x) && spare == [] else x == old(spare)[0] && spare == old(spare)[1..]
    {
      if spareList != null {
        x := spareList;
        spareList := x.left;
        spare := spare[1..];
      } else {
        NodesAllocated(shape);
        x := new Node(g);
      }
    }

    method Plant(x: Node, g: Region)
      requires Formed() && x !in Owned() && (Search(shape) ==> Cloven(Containing(g.start), shape))
      modifies this`tree, this`shape, x, Nodes(shape)
      ensures Formed() && spare == old(spare) && (Valid() <==> old(Valid() && Clear(Regions(), g)))
      ensures tree == x && shape == Planted(old(shape), x, g)
    {
      hide Search, Regs, Cloven, Clear, Planted, Proper;
      PlantedSearch(shape, x, g);
      PlantedNodes(shape, x, g);
      NodesAllocated(shape);
      Relink(x, g, tree, shape);
      tree, shape := x, Planted(shape, x, g);
    }

    /** splay_insert. Only the start address is looked at: the regions stay disjoint exactly when it was
        covered or the whole new region is clear of them; once they are not, they stay so. */
    method Insert(addr: Word, size: Word) returns (ghost added: bool)
      requires Formed()
      modifies this, Owned()
      ensures Formed() && (Valid() <==> old(Valid() && Insertable(Regions(), addr, size))) && tree != null
      ensures old(Valid()) ==>
        && added == !old(Covered(Regions(), addr)) && Regions() == Inserted(old(Regions()), addr, size)
        && RootOnce(shape) && (!added ==> tree.region.Contains(addr))
      ensures if added then Added(old(shape), Region(addr, size, NoKind, false))
              else Order(shape) == old(Order(shape)) && Regions() == old(Regions())
      ensures if added && old(spare) != [] then spare == old(spare)[1..] else spare == old(spare)
      ensures fresh(Owned() - old(Owned())) && old(Owned()) <= Owned() && (old(spare) != [] ==> Owned() == old(Owned()))
    {
      hide Search, Rep, Order, Proper, FreeList, OneMore, Regs, Cloven;
      var k := Containing(addr);
      if tree != null {
        Seek(k);
        BranchIsRoot();
        if Search(shape) {
          SearchRootOnce(shape);
          RootCovers(addr, shape);
        }
        if Compare(k, tree.region) == 0 {
          return false;
        }
      }
      BranchIsRoot();
      LeafCovers(addr, shape);
      AddRegion(addr, size);
      added := true;
    }

    /** The root holds g, which all the other regions have been joined by. */
    ghost predicate Added(s0: Shape, g: Region)
      reads this, tree
    {
      && tree != null && tree.region == g && Regions() == Regs(s0) + {g}
      && OneMore(Order(s0), Cell(tree, g), Order(shape))
    }

    lemma BranchIsRoot()
      requires Formed()
      ensures if tree == null then shape == Leaf else shape.Branch? && tree == shape.node && tree.region == shape.region
    {}

    /** The second half of splay_insert: a node for the new region becomes the root. */
    method AddRegion(addr: Word, size: Word)
      requires Formed() && (Search(shape) ==> Cloven(Containing(addr), shape) && !Covered(Regions(), addr))
      modifies this, Owned()
      ensures Formed() && (Valid() <==> old(Valid() && Clear(Regions(), Region(addr, size, NoKind, false))))
      ensures Added(old(shape), Region(addr, size, NoKind, false)) && (old(Valid()) ==> RootOnce(shape))
      ensures Owned() == old(Owned()) + {tree} && if old(spare) == [] then fresh(tree) else tree in old(Owned())
      ensures spare == if old(spare) == [] then [] else old(spare)[1..]
    {
      hide Search, Rep, Order, Proper, FreeList, OneMore, Regs, Cloven, Clear;
      var g := Region(addr, size, NoKind, false);
      ghost var s := shape;
      var x := TakeNode(g);
      if Search(s) { PlantedRootOnce(s, x, g); }
      PlantedRegs(s, x, g);
      PlantedNodes(s, x, g);
      PlantedOrder(s, x, g);
      Plant(x, g);
      PlantedRoot(s, x, g);
      BranchIsRoot();
    }

    /** x, without a right child, takes over the right subtree of t. */
    method Hang(t: Node, x: Node, ghost l: Shape, ghost r: Shape)
      requires Rep(x, l) && l.Branch? && l.right == Leaf && Rep(t.right, r) && Proper(l) && Nodes(l) !! Nodes(r)
      requires t != x
      modifies x`right
      ensures Rep(x, Branch(l.left, x, l.region, r))
    {
      x.right := t.right;
    }

    /** The second half of splay_delete: what remains when the root is taken out. */
    method Join(ghost s0: Shape) returns (x: Node?, ghost s: Shape)
      requires Valid() && shape.Branch? && s0 == shape
      modifies Nodes(shape)`left, Nodes(shape)`right
      ensures Rep(x, s) && Proper(s) && Search(s)
      ensures Nodes(s) == Nodes(s0) - {s0.node} && Regs(s) == Regs(s0) - {s0.region}
      ensures Order(s) == Order(s0.left) + Order(s0.right)
    {
      var t := tree;
      assert Rep(t.left, s0.left) && Rep(t.right, s0.right);
      JoinedRegs(s0);
      if t.left == null {
        x, s := t.right, s0.right;
      } else {
        NodesAllocated(s0);
        ghost var l: Shape;
        x, l := Splay(Containing(t.region.start), t.left, s0.left);
        JoinHasNoRight(s0, l);
        JoinedFacts(s0, l);
        s := Branch(l.left, x, l.region, s0.right);
        Hang(t, x, l, s0.right);
      }
    }

    /** The old root t goes to the list of recycled nodes; x becomes the root. */
    method Retire(t: Node, x: Node?, ghost s: Shape)
      requires Rep(x, s) && Proper(s) && Search(s) && t !in Nodes(s) && t !in spare
      requires FreeList(spareList, spare) && forall i, j :: 0 <= i < j < |spare| ==> spare[i] != spare[j]
      requires forall n <- spare :: n !in Nodes(s)
      modifies this, t`left
      ensures Valid() && shape == s && spare == [t] + old(spare)
    {
      hide Proper, Search;
      t.left := spareList;
      spareList, spare := t, [t] + spare;
      tree, shape := x, s;
    }

    /** splay_delete, once the region to remove is at the root. */
    method DropRoot()
      requires Valid() && tree != null
      modifies this, Owned()
      ensures Valid() && Owned() == old(Owned()) && spare == [old(tree)] + old(spare)
      ensures Regions() == old(Regions()) - {old(tree.region)}
      ensures OneMore(Order(shape), Cell(old(tree), old(tree.region)), old(Order(shape)))
    {
      hide Search, Proper, OneMore;
      ghost var s0 := shape;
      var t := tree;
      var x: Node?;
      ghost var s: Shape;
      x, s := Join(s0);
      OneMoreBetween(Order(s0.left), Cell(t, s0.region), Order(s0.right));
      Retire(t, x, s);
    }

    /** splay_delete */
    method Delete(addr: Word)
      requires Valid()
      modifies this, Owned()
      ensures Valid() && Owned() == old(Owned())
      ensures Regions() == Removed(old(Regions()), addr)
      ensures (exists g <- old(Regions()) :: g.start == addr) ==>
        exists c: Cell ::
          c.region.start == addr && OneMore(Order(shape), c, old(Order(shape))) && spare == [c.node] + old(spare)
      ensures !(exists g <- old(Regions()) :: g.start == addr) ==>
        Order(shape) == old(Order(shape)) && spare == old(spare)
    {
      hide Search, Cloven, Proper, OneMore;
      if tree == null { return; }
      Seek(Containing(addr));
      RootStarts(addr, shape);
      if tree.region.start == addr {
        ghost var c := Cell(tree, tree.region);
        DropRoot();
        assert c.region.start == addr;
      }
    }

    /** The data of the root is overwritten in place; start and size stay. */
    method MarkRoot(kind: Kind, invalid: bool)
      requires Formed() && tree != null && RootOnce(shape)
      modifies this`shape, tree`region
      ensures Formed() && (Valid() <==> old(Valid())) && Owned() == old(Owned()) && spare == old(spare)
      ensures tree.region == old(tree.region).(kind := kind, invalid := invalid)
      ensures Regions() == old(Regions()) - {old(tree.region)} + {tree.region}
    {
      MarkedFacts(shape, tree.region.(kind := kind, invalid := invalid));
      tree.region := tree.region.(kind := kind, invalid := invalid);
      shape := Marked(shape, tree.region);
    }
  }

  lemma RootCovers(addr: Word, s: Shape)
    requires Search(s) && Cloven(Containing(addr), s)
    ensures Covered(Regs(s), addr) <==> s.Branch? && s.region.Contains(addr)
    ensures s.Branch? ==> (s.region.Contains(addr) <==> Compare(Containing(addr), s.region) == 0)
  {
    hide Search, Cloven, Regs, Compare;
    SearchWellFormed(s);
    RootIsRegion(s);
    RootDecides(Containing(addr), s);
    forall g <- Regs(s) ensures g.Contains(addr) <==> Compare(Containing(addr), g) == 0 {
      CompareMeaning(Containing(addr), g);
    }
  }

  lemma LeafCovers(addr: Word, s: Shape)
    ensures s == Leaf ==> !Covered(Regs(s), addr) && Cloven(Containing(addr), s)
  {}

  lemma RootStarts(addr: Word, s: Shape)
    requires Search(s) && Cloven(Containing(addr), s)
    ensures forall g <- Regs(s) :: g.start == addr ==> s.Branch? && g == s.region
    ensures s.Branch? ==> s.region in Regs(s)
    ensures s.Branch? && s.region.start == addr ==> Regs(s) - {s.region} == Removed(Regs(s), addr)
    ensures s.Branch? && s.region.start != addr ==> Regs(s) == Removed(Regs(s), addr)
  {
    RootDecides(Containing(addr), s);
    SearchWellFormed(s);
  }
}
