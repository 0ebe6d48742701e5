/** The top-down splay of lib/bcheck.c on linked nodes.

    A Shape is the abstract value of a tree of nodes. During the search the tree is
    cut in three: a left tree whose hole is at its far right (everything in it lies
    below the key), the rest still to be searched, and a right tree whose hole is at
    its far left. Spines describe the two trees with a hole. */
module SplayTree {
  import opened Regions

  class Node {
    var left: Node?
    var right: Node?
    var region: Region

    constructor (region: Region)
      ensures left == null && right == null && this.region == region
    {
      left, right, this.region := null, null, region;
    }
  }

  // Trees

  datatype Shape = Leaf | Branch(left: Shape, node: Node, region: Region, right: Shape)

  datatype Cell = Cell(node: Node, region: Region)

  ghost function Nodes(s: Shape): set<Node> {
    match s
    case Leaf => {}
    case Branch(l, x, _, r) => Nodes(l) + {x} + Nodes(r)
  }

  ghost function Regs(s: Shape): set<Region> {
    match s
    case Leaf => {}
    case Branch(l, _, g, r) => Regs(l) + {g} + Regs(r)
  }

  /** The nodes in order, each with its region. */
  ghost function Order(s: Shape): seq<Cell> {
    match s
    case Leaf => []
    case Branch(l, x, g, r) => Order(l) + [Cell(x, g)] + Order(r)
  }

  /** A search tree of disjoint regions. */
  ghost predicate Search(s: Shape) {
    match s
    case Leaf => true
    case Branch(l, _, g, r) =>
      && g.WellFormed() && Search(l) && Search(r)
      && (forall h <- Regs(l) :: Before(h, g))
      && (forall h <- Regs(r) :: Before(g, h))
  }

  /** No node occurs twice: the links form a tree. */
  ghost predicate Proper(s: Shape) {
    match s
    case Leaf => true
    case Branch(l, x, _, r) =>
      Proper(l) && Proper(r) && x !in Nodes(l) && x !in Nodes(r) && Nodes(l) !! Nodes(r)
  }

  /** The links starting at n spell out s. */
  ghost predicate Rep(n: Node?, s: Shape)
    reads Nodes(s)
  {
    match s
    case Leaf => n == null
    case Branch(l, x, g, r) => n == x && x.region == g && Rep(x.left, l) && Rep(x.right, r)
  }

  lemma {:induction false} NodesAllocated(s: Shape)
    ensures forall n <- Nodes(s) :: allocated(n)
  {
    match s
    case Leaf =>
    case Branch(l, _, _, r) =>
      NodesAllocated(l);
      NodesAllocated(r);
  }

  // Order of the regions

  ghost predicate Ascending(cells: seq<Cell>) {
    && (forall c <- cells :: c.region.WellFormed())
    && (forall i, j :: 0 <= i < j < |cells| ==> Before(cells[i].region, cells[j].region))
  }

  lemma {:induction false} OrderHasRegs(s: Shape)
    ensures forall g :: g in Regs(s) <==> exists c <- Order(s) :: c.region == g
  {
    match s
    case Leaf =>
    case Branch(l, x, g, r) =>
      OrderHasRegs(l);
      OrderHasRegs(r);
      assert Cell(x, g) in Order(s);
      assert forall c <- Order(l) :: c in Order(s);
      assert forall c <- Order(r) :: c in Order(s);
      assert forall c <- Order(s) :: c in Order(l) || c == Cell(x, g) || c in Order(r);
  }

  lemma AscendingParts(a: seq<Cell>, m: Cell, b: seq<Cell>)
    requires Ascending(a + [m] + b)
    ensures Ascending(a) && Ascending(b) && m.region.WellFormed()
    ensures forall c <- a :: Before(c.region, m.region)
    ensures forall c <- b :: Before(m.region, c.region)
  {
    var o := a + [m] + b;
    assert o[|a|] == m;
    forall i | 0 <= i < |a| ensures a[i].region.WellFormed() && Before(a[i].region, m.region) {
      assert o[i] == a[i] && o[i] in o;
    }
    forall i | 0 <= i < |b| ensures b[i].region.WellFormed() && Before(m.region, b[i].region) {
      assert o[|a| + 1 + i] == b[i] && o[|a| + 1 + i] in o;
    }
    forall i, j | 0 <= i < j < |a| ensures Before(a[i].region, a[j].region) {
      assert o[i] == a[i] && o[j] == a[j];
    }
    forall i, j | 0 <= i < j < |b| ensures Before(b[i].region, b[j].region) {
      assert o[|a| + 1 + i] == b[i] && o[|a| + 1 + j] == b[j];
    }
  }

  lemma AscendingWhole(a: seq<Cell>, m: Cell, b: seq<Cell>)
    requires Ascending(a) && Ascending(b) && m.region.WellFormed()
    requires forall c <- a :: Before(c.region, m.region)
    requires forall c <- b :: Before(m.region, c.region)
    ensures Ascending(a + [m] + b)
  {}

  /** A tree is a search tree exactly when its in-order sequence ascends. */
  lemma {:induction false} SearchIsAscending(s: Shape)
    ensures Search(s) <==> Ascending(Order(s))
  {
    match s
    case Leaf =>
    case Branch(l, x, g, r) =>
      SearchIsAscending(l);
      SearchIsAscending(r);
      OrderHasRegs(l);
      OrderHasRegs(r);
      if Ascending(Order(s)) { AscendingParts(Order(l), Cell(x, g), Order(r)); }
      if Search(s) { AscendingWhole(Order(l), Cell(x, g), Order(r)); }
  }

  /** The in-order sequence alone decides the region set and whether the tree is searchable. */
  lemma OrderFixesKeys(s: Shape, s': Shape)
    requires Order(s) == Order(s')
    ensures Regs(s) == Regs(s') && (Search(s) <==> Search(s'))
  {
    OrderHasRegs(s);
    OrderHasRegs(s');
    SearchIsAscending(s);
    SearchIsAscending(s');
  }

  lemma {:induction false} SearchWellFormed(s: Shape)
    requires Search(s)
    ensures forall g <- Regs(s) :: g.WellFormed()
  {
    match s
    case Leaf =>
    case Branch(l, _, _, r) =>
      SearchWellFormed(l);
      SearchWellFormed(r);
  }

  lemma {:induction false} SearchDisjoint(s: Shape)
    requires Search(s)
    ensures Disjoint(Regs(s))
  {
    match s
    case Leaf =>
    case Branch(l, _, g, r) =>
      SearchDisjoint(l);
      SearchDisjoint(r);
      forall a <- Regs(l), b <- Regs(r) ensures Before(a, b) {
        assert Before(a, g) && Before(g, b);
      }
  }

  lemma RightOfRoot(k: Key, s: Shape)
    requires Search(s) && s.Branch? && Compare(k, s.region) <= 0
    ensures forall g <- Regs(s.right) :: Compare(k, g) < 0
  {
    SearchWellFormed(s);
    forall g <- Regs(s.right) ensures Compare(k, g) < 0 { CompareMonotone(k, s.region, g); }
  }

  lemma LeftOfRoot(k: Key, s: Shape)
    requires Search(s) && s.Branch? && Compare(k, s.region) >= 0
    ensures forall g <- Regs(s.left) :: Compare(k, g) > 0
  {}

  // Trees with a hole

  datatype Spine = Nil | Link(init: Spine, node: Node, region: Region, sub: Shape)

  ghost function SpineNodes(sp: Spine): set<Node> {
    match sp
    case Nil => {}
    case Link(i, x, _, sub) => SpineNodes(i) + {x} + Nodes(sub)
  }

  lemma {:induction false} SpineAllocated(sp: Spine)
    ensures forall n <- SpineNodes(sp) :: allocated(n)
  {
    match sp
    case Nil =>
    case Link(i, _, _, sub) =>
      SpineAllocated(i);
      NodesAllocated(sub);
  }

  ghost function SpineRegs(sp: Spine): set<Region> {
    match sp
    case Nil => {}
    case Link(i, _, g, sub) => SpineRegs(i) + {g} + Regs(sub)
  }

  ghost predicate SpineProper(sp: Spine) {
    match sp
    case Nil => true
    case Link(i, x, _, sub) =>
      && SpineProper(i) && Proper(sub)
      && x !in Nodes(sub) && x !in SpineNodes(i) && Nodes(sub) !! SpineNodes(i)
  }

  ghost function LeftOrder(sp: Spine): seq<Cell> {
    match sp
    case Nil => []
    case Link(i, x, g, sub) => LeftOrder(i) + Order(sub) + [Cell(x, g)]
  }

  ghost function RightOrder(sp: Spine): seq<Cell> {
    match sp
    case Nil => []
    case Link(i, x, g, sub) => [Cell(x, g)] + Order(sub) + RightOrder(i)
  }

  /** The left tree hangs off hd.right and its hole, the last right link, holds next. */
  ghost predicate LeftClosed(hd: Node, sp: Spine, next: Node?)
    reads hd`right, SpineNodes(sp)
  {
    match sp
    case Nil => hd.right == next
    case Link(i, x, g, sub) => x.right == next && x.region == g && Rep(x.left, sub) && LeftClosed(hd, i, x)
  }

  /** The left tree with l at its hole, whatever the hole holds. */
  ghost predicate LeftOpen(hd: Node, sp: Spine, l: Node)
    reads hd`right, SpineNodes(sp)
  {
    match sp
    case Nil => l == hd
    case Link(i, x, g, sub) => l == x && x.region == g && Rep(x.left, sub) && LeftClosed(hd, i, x)
  }

  ghost predicate RightClosed(hd: Node, sp: Spine, next: Node?)
    reads hd`left, SpineNodes(sp)
  {
    match sp
    case Nil => hd.left == next
    case Link(i, x, g, sub) => x.left == next && x.region == g && Rep(x.right, sub) && RightClosed(hd, i, x)
  }

  ghost predicate RightOpen(hd: Node, sp: Spine, r: Node)
    reads hd`left, SpineNodes(sp)
  {
    match sp
    case Nil => r == hd
    case Link(i, x, g, sub) => r == x && x.region == g && Rep(x.right, sub) && RightClosed(hd, i, x)
  }

  ghost function LeftFill(sp: Spine, s: Shape): Shape {
    match sp
    case Nil => s
    case Link(i, x, g, sub) => LeftFill(i, Branch(sub, x, g, s))
  }

  ghost function RightFill(sp: Spine, s: Shape): Shape {
    match sp
    case Nil => s
    case Link(i, x, g, sub) => RightFill(i, Branch(s, x, g, sub))
  }

  lemma {:induction false} LeftFillRep(hd: Node, sp: Spine, next: Node?, s: Shape)
    requires LeftClosed(hd, sp, next) && Rep(next, s)
    ensures Rep(hd.right, LeftFill(sp, s))
    decreases sp
  {
    match sp
    case Nil =>
    case Link(i, x, g, sub) => LeftFillRep(hd, i, x, Branch(sub, x, g, s));
  }

  lemma {:induction false} RightFillRep(hd: Node, sp: Spine, next: Node?, s: Shape)
    requires RightClosed(hd, sp, next) && Rep(next, s)
    ensures Rep(hd.left, RightFill(sp, s))
    decreases sp
  {
    match sp
    case Nil =>
    case Link(i, x, g, sub) => RightFillRep(hd, i, x, Branch(s, x, g, sub));
  }

  lemma {:induction false} LeftFillNodes(sp: Spine, s: Shape)
    requires SpineProper(sp) && Proper(s) && SpineNodes(sp) !! Nodes(s)
    ensures Proper(LeftFill(sp, s)) && Nodes(LeftFill(sp, s)) == SpineNodes(sp) + Nodes(s)
    decreases sp
  {
    match sp
    case Nil =>
    case Link(i, x, g, sub) =>
      var s' := Branch(sub, x, g, s);
      assert Nodes(s') == Nodes(sub) + {x} + Nodes(s);
      LeftFillNodes(i, s');
  }

  lemma {:induction false} RightFillNodes(sp: Spine, s: Shape)
    requires SpineProper(sp) && Proper(s) && SpineNodes(sp) !! Nodes(s)
    ensures Proper(RightFill(sp, s)) && Nodes(RightFill(sp, s)) == SpineNodes(sp) + Nodes(s)
    decreases sp
  {
    match sp
    case Nil =>
    case Link(i, x, g, sub) =>
      var s' := Branch(s, x, g, sub);
      assert Nodes(s') == Nodes(s) + {x} + Nodes(sub);
      RightFillNodes(i, s');
  }

  lemma {:induction false} LeftFillOrder(sp: Spine, s: Shape)
    ensures Regs(LeftFill(sp, s)) == SpineRegs(sp) + Regs(s)
    ensures Order(LeftFill(sp, s)) == LeftOrder(sp) + Order(s)
    decreases sp
  {
    match sp
    case Nil =>
    case Link(i, x, g, sub) =>
      LeftFillOrder(i, Branch(sub, x, g, s));
      assert LeftOrder(i) + (Order(sub) + [Cell(x, g)] + Order(s)) == LeftOrder(sp) + Order(s);
  }

  lemma {:induction false} RightFillOrder(sp: Spine, s: Shape)
    ensures Regs(RightFill(sp, s)) == SpineRegs(sp) + Regs(s)
    ensures Order(RightFill(sp, s)) == Order(s) + RightOrder(sp)
    decreases sp
  {
    match sp
    case Nil =>
    case Link(i, x, g, sub) =>
      RightFillOrder(i, Branch(s, x, g, sub));
      assert (Order(s) + [Cell(x, g)] + Order(sub)) + RightOrder(i) == Order(s) + RightOrder(sp);
  }

  // The tree cut in three

  datatype Zip = Zip(left: Spine, mid: Shape, right: Spine)

  ghost function ZipNodes(z: Zip): set<Node> {
    SpineNodes(z.left) + Nodes(z.mid) + SpineNodes(z.right)
  }

  ghost predicate Separate(z: Zip) {
    && Proper(z.mid) && SpineProper(z.left) && SpineProper(z.right)
    && SpineNodes(z.left) !! SpineNodes(z.right)
    && SpineNodes(z.left) !! Nodes(z.mid) && SpineNodes(z.right) !! Nodes(z.mid)
  }

  ghost predicate CutNodes(z: Zip, s0: Shape) {
    Separate(z) && ZipNodes(z) == Nodes(s0)
  }

  ghost predicate CutOrder(z: Zip, s0: Shape) {
    LeftOrder(z.left) + Order(z.mid) + RightOrder(z.right) == Order(s0)
  }

  ghost predicate CutKeys(k: Key, z: Zip) {
    && Search(z.mid)
    && (forall g <- SpineRegs(z.left) :: Compare(k, g) > 0)
    && (forall g <- SpineRegs(z.right) :: Compare(k, g) < 0)
  }

  /** z is s0 cut in three, and if s0 is a search tree, then around the key. */
  ghost predicate Cut(k: Key, s0: Shape, z: Zip) {
    z.mid.Branch? && CutNodes(z, s0) && CutOrder(z, s0) && (Search(s0) ==> CutKeys(k, z))
  }

  lemma CutWhole(k: Key, s0: Shape)
    requires s0.Branch? && Proper(s0)
    ensures Cut(k, s0, Zip(Nil, s0, Nil))
  {}

  ghost function TurnedRight(s: Shape): Shape
    requires s.Branch? && s.left.Branch?
  {
    var low := s.left;
    Branch(low.left, low.node, low.region, Branch(low.right, s.node, s.region, s.right))
  }

  ghost function TurnedLeft(s: Shape): Shape
    requires s.Branch? && s.right.Branch?
  {
    var high := s.right;
    Branch(Branch(s.left, s.node, s.region, high.left), high.node, high.region, high.right)
  }

  ghost function RotatedRight(z: Zip): Zip
    requires z.mid.Branch? && z.mid.left.Branch?
  {
    z.(mid := TurnedRight(z.mid))
  }

  ghost function RotatedLeft(z: Zip): Zip
    requires z.mid.Branch? && z.mid.right.Branch?
  {
    z.(mid := TurnedLeft(z.mid))
  }

  ghost function LinkedRight(z: Zip): Zip
    requires z.mid.Branch?
  {
    Zip(z.left, z.mid.left, Link(z.right, z.mid.node, z.mid.region, z.mid.right))
  }

  ghost function LinkedLeft(z: Zip): Zip
    requires z.mid.Branch?
  {
    Zip(Link(z.left, z.mid.node, z.mid.region, z.mid.left), z.mid.right, z.right)
  }

  lemma RotatedRightNodes(z: Zip, s0: Shape)
    requires z.mid.Branch? && z.mid.left.Branch? && CutNodes(z, s0)
    ensures CutNodes(RotatedRight(z), s0) && Nodes(RotatedRight(z).mid) == Nodes(z.mid)
  {
    var low, down := z.mid.left, RotatedRight(z).mid.right;
    assert Proper(low) && Nodes(low) == Nodes(low.left) + {low.node} + Nodes(low.right);
    assert Proper(down) && Nodes(down) == Nodes(low.right) + {z.mid.node} + Nodes(z.mid.right);
  }

  lemma RotatedLeftNodes(z: Zip, s0: Shape)
    requires z.mid.Branch? && z.mid.right.Branch? && CutNodes(z, s0)
    ensures CutNodes(RotatedLeft(z), s0) && Nodes(RotatedLeft(z).mid) == Nodes(z.mid)
  {
    var high, down := z.mid.right, RotatedLeft(z).mid.left;
    assert Proper(high) && Nodes(high) == Nodes(high.left) + {high.node} + Nodes(high.right);
    assert Proper(down) && Nodes(down) == Nodes(z.mid.left) + {z.mid.node} + Nodes(high.left);
  }

  lemma RotatedOrder(z: Zip)
    requires z.mid.Branch?
    ensures z.mid.left.Branch? ==> Order(RotatedRight(z).mid) == Order(z.mid)
    ensures z.mid.right.Branch? ==> Order(RotatedLeft(z).mid) == Order(z.mid)
  {}

  lemma RotatedKeys(k: Key, z: Zip)
    requires z.mid.Branch? && CutKeys(k, z)
    ensures z.mid.left.Branch? ==> CutKeys(k, RotatedRight(z))
    ensures z.mid.right.Branch? ==> CutKeys(k, RotatedLeft(z))
  {
    SearchIsAscending(z.mid);
    RotatedOrder(z);
    if z.mid.left.Branch? { SearchIsAscending(RotatedRight(z).mid); }
    if z.mid.right.Branch? { SearchIsAscending(RotatedLeft(z).mid); }
  }

  lemma CutRotateRight(k: Key, s0: Shape, z: Zip)
    requires Cut(k, s0, z) && z.mid.left.Branch?
    ensures Cut(k, s0, RotatedRight(z)) && Nodes(RotatedRight(z).mid) == Nodes(z.mid)
  {
    RotatedRightNodes(z, s0);
    RotatedOrder(z);
    if Search(s0) { RotatedKeys(k, z); }
  }

  lemma CutRotateLeft(k: Key, s0: Shape, z: Zip)
    requires Cut(k, s0, z) && z.mid.right.Branch?
    ensures Cut(k, s0, RotatedLeft(z)) && Nodes(RotatedLeft(z).mid) == Nodes(z.mid)
  {
    RotatedLeftNodes(z, s0);
    RotatedOrder(z);
    if Search(s0) { RotatedKeys(k, z); }
  }

  lemma LinkedNodes(z: Zip, s0: Shape)
    requires CutNodes(z, s0) && z.mid.Branch?
    ensures CutNodes(LinkedRight(z), s0) && CutNodes(LinkedLeft(z), s0)
  {}

  lemma LinkedOrder(z: Zip, s0: Shape)
    requires CutOrder(z, s0) && z.mid.Branch?
    ensures CutOrder(LinkedRight(z), s0) && CutOrder(LinkedLeft(z), s0)
  {}

  lemma LinkedKeys(k: Key, z: Zip)
    requires CutKeys(k, z) && z.mid.Branch?
    ensures Compare(k, z.mid.region) < 0 ==> CutKeys(k, LinkedRight(z))
    ensures Compare(k, z.mid.region) > 0 ==> CutKeys(k, LinkedLeft(z))
  {
    if Compare(k, z.mid.region) < 0 { RightOfRoot(k, z.mid); }
    if Compare(k, z.mid.region) > 0 { LeftOfRoot(k, z.mid); }
  }

  lemma CutLink(k: Key, s0: Shape, z: Zip)
    requires Cut(k, s0, z)
    ensures Compare(k, z.mid.region) < 0 && z.mid.left.Branch? ==> Cut(k, s0, LinkedRight(z))
    ensures Compare(k, z.mid.region) > 0 && z.mid.right.Branch? ==> Cut(k, s0, LinkedLeft(z))
  {
    LinkedNodes(z, s0);
    LinkedOrder(z, s0);
    if Search(s0) { LinkedKeys(k, z); }
  }

  /** Both holes filled with the subtrees of the middle, whose root takes them. */
  ghost function Assembled(z: Zip): Shape
    requires z.mid.Branch?
  {
    Branch(LeftFill(z.left, z.mid.left), z.mid.node, z.mid.region, RightFill(z.right, z.mid.right))
  }

  /** The root parts the keys: all regions left of it lie below the key, all right of it above. */
  ghost predicate Cloven(k: Key, s: Shape) {
    s.Branch? ==>
      && (forall g <- Regs(s.left) :: Compare(k, g) > 0)
      && (forall g <- Regs(s.right) :: Compare(k, g) < 0)
  }

  lemma AssembledNodes(z: Zip, s0: Shape)
    requires CutNodes(z, s0) && z.mid.Branch?
    ensures Proper(Assembled(z)) && Nodes(Assembled(z)) == Nodes(s0)
  {
    LeftFillNodes(z.left, z.mid.left);
    RightFillNodes(z.right, z.mid.right);
  }

  lemma AssembledOrder(z: Zip, s0: Shape)
    requires CutOrder(z, s0) && z.mid.Branch?
    ensures Order(Assembled(z)) == Order(s0)
  {
    LeftFillOrder(z.left, z.mid.left);
    RightFillOrder(z.right, z.mid.right);
  }

  lemma AssembledKeys(k: Key, z: Zip)
    requires CutKeys(k, z) && z.mid.Branch?
    requires Compare(k, z.mid.region) < 0 ==> z.mid.left == Leaf
    requires Compare(k, z.mid.region) > 0 ==> z.mid.right == Leaf
    ensures Cloven(k, Assembled(z))
  {
    LeftFillOrder(z.left, z.mid.left);
    RightFillOrder(z.right, z.mid.right);
    if Compare(k, z.mid.region) <= 0 { RightOfRoot(k, z.mid); }
    if Compare(k, z.mid.region) >= 0 { LeftOfRoot(k, z.mid); }
  }

  /** What a splay of s0 for the key k leaves behind: the same nodes with the same regions in the
      same order; and from a search tree, a search tree with a root that parts the keys. */
  ghost predicate Splayed(k: Key, s0: Shape, s: Shape) {
    && Proper(s) && Nodes(s) == Nodes(s0) && Order(s) == Order(s0)
    && Regs(s) == Regs(s0) && (Search(s) <==> Search(s0)) && (Search(s0) ==> Cloven(k, s))
  }

  lemma AssembledSplayed(k: Key, s0: Shape, z: Zip)
    requires Cut(k, s0, z)
    requires Compare(k, z.mid.region) < 0 ==> z.mid.left == Leaf
    requires Compare(k, z.mid.region) > 0 ==> z.mid.right == Leaf
    ensures Splayed(k, s0, Assembled(z))
  {
    AssembledNodes(z, s0);
    AssembledOrder(z, s0);
    if Search(s0) { AssembledKeys(k, z); }
    OrderFixesKeys(Assembled(z), s0);
  }

  /** After a splay the root is a match if any region is, and it is the only one. */
  lemma RootDecides(k: Key, s: Shape)
    requires Search(s) && Cloven(k, s)
    ensures (exists g <- Regs(s) :: Compare(k, g) == 0) <==> s.Branch? && Compare(k, s.region) == 0
    ensures forall g <- Regs(s) :: Compare(k, g) == 0 ==> g == s.region
  {}

  // The pointer surgery

  ghost predicate Linked(z: Zip, hd: Node, l: Node, t: Node?, r: Node)
    reads hd, ZipNodes(z)
  {
    && z.mid.Branch? && hd !in ZipNodes(z)
    && Rep(t, z.mid) && LeftOpen(hd, z.left, l) && RightOpen(hd, z.right, r)
  }

  method TurnRight(t: Node, ghost s: Shape) returns (y: Node)
    requires Rep(t, s) && Proper(s) && s.Branch? && s.left.Branch?
    modifies t`left, s.left.node`right
    ensures Rep(y, TurnedRight(s))
  {
    assert Rep(t.left, s.left) && Proper(s.left);
    y := t.left;
    t.left := y.right;
    y.right := t;
  }

  method TurnLeft(t: Node, ghost s: Shape) returns (y: Node)
    requires Rep(t, s) && Proper(s) && s.Branch? && s.right.Branch?
    modifies t`right, s.right.node`left
    ensures Rep(y, TurnedLeft(s))
  {
    assert Rep(t.right, s.right) && Proper(s.right);
    y := t.right;
    t.right := y.left;
    y.left := t;
  }

  method RotateRight(t: Node, ghost z: Zip, ghost hd: Node, ghost l: Node, ghost r: Node) returns (y: Node)
    requires Linked(z, hd, l, t, r) && z.mid.left.Branch? && Proper(z.mid)
    requires {z.mid.node, z.mid.left.node} !! SpineNodes(z.left) + SpineNodes(z.right)
    requires Nodes(RotatedRight(z).mid) == Nodes(z.mid)
    modifies z.mid.node`left, z.mid.left.node`right
    ensures Linked(RotatedRight(z), hd, l, y, r)
  {
    hide Proper, SpineProper, LeftOpen, RightOpen, LeftClosed, RightClosed;
    SpineAllocated(z.left);
    SpineAllocated(z.right);
    y := TurnRight(t, z.mid);
  }

  method RotateLeft(t: Node, ghost z: Zip, ghost hd: Node, ghost l: Node, ghost r: Node) returns (y: Node)
    requires Linked(z, hd, l, t, r) && z.mid.right.Branch? && Proper(z.mid)
    requires {z.mid.node, z.mid.right.node} !! SpineNodes(z.left) + SpineNodes(z.right)
    requires Nodes(RotatedLeft(z).mid) == Nodes(z.mid)
    modifies z.mid.node`right, z.mid.right.node`left
    ensures Linked(RotatedLeft(z), hd, l, y, r)
  {
    hide Proper, SpineProper, LeftOpen, RightOpen, LeftClosed, RightClosed;
    SpineAllocated(z.left);
    SpineAllocated(z.right);
    y := TurnLeft(t, z.mid);
  }

  method LinkRight(t: Node, r: Node, ghost z: Zip, ghost hd: Node, ghost l: Node) returns (below: Node)
    requires Linked(z, hd, l, t, r) && z.mid.left.Branch? && Separate(z)
    modifies r`left
    ensures Linked(LinkedRight(z), hd, l, below, t)
  {
    assert Rep(t.left, z.mid.left);
    r.left := t;
    below := t.left;
  }

  method LinkLeft(t: Node, l: Node, ghost z: Zip, ghost hd: Node, ghost r: Node) returns (above: Node)
    requires Linked(z, hd, l, t, r) && z.mid.right.Branch? && Separate(z)
    modifies l`right
    ensures Linked(LinkedLeft(z), hd, t, above, r)
  {
    assert Rep(t.right, z.mid.right);
    l.right := t;
    above := t.right;
  }

  /** The subtrees of the middle go to the two holes. */
  method FillHoles(hd: Node, l: Node, t: Node, r: Node, ghost z: Zip)
    requires Linked(z, hd, l, t, r) && Separate(z)
    modifies l`right, r`left
    ensures Rep(hd.right, LeftFill(z.left, z.mid.left)) && Rep(hd.left, RightFill(z.right, z.mid.right))
  {
    l.right := t.left;
    r.left := t.right;
    LeftFillRep(hd, z.left, t.left, z.mid.left);
    RightFillRep(hd, z.right, t.right, z.mid.right);
  }

  /** Then the two trees become those of the middle node. */
  method Assemble(hd: Node, l: Node, t: Node, r: Node, ghost z: Zip)
    requires Linked(z, hd, l, t, r) && Separate(z)
    modifies l`right, r`left, t`left, t`right
    ensures Rep(t, Assembled(z))
  {
    hide LeftOpen, RightOpen, LeftClosed, RightClosed, SpineProper;
    FillHoles(hd, l, t, r, z);
    LeftFillNodes(z.left, z.mid.left);
    RightFillNodes(z.right, z.mid.right);
    t.left := hd.right;
    t.right := hd.left;
  }

  /** What a turn at a node above the key makes of the three parts. Where the key lies below the left child too, the
      two are turned around first, and the search goes on two nodes down. */
  ghost predicate TurnBelow(k: Key, z: Zip, z': Zip, done: bool) {
    z.mid.Branch? &&
    match z.mid.left
    case Leaf => done && z' == z
    case Branch(low, y, g, high) =>
      if Compare(k, g) >= 0 then
        !done && z' == Zip(z.left, z.mid.left, Link(z.right, z.mid.node, z.mid.region, z.mid.right))
      else
        var down := Branch(high, z.mid.node, z.mid.region, z.mid.right);
        if low == Leaf then done && z' == Zip(z.left, Branch(low, y, g, down), z.right)
        else !done && z' == Zip(z.left, low, Link(z.right, y, g, down))
  }

  /** And at a node below the key. */
  ghost predicate TurnAbove(k: Key, z: Zip, z': Zip, done: bool) {
    z.mid.Branch? &&
    match z.mid.right
    case Leaf => done && z' == z
    case Branch(low, y, g, high) =>
      if Compare(k, g) <= 0 then
        !done && z' == Zip(Link(z.left, z.mid.node, z.mid.region, z.mid.left), z.mid.right, z.right)
      else
        var down := Branch(z.mid.left, z.mid.node, z.mid.region, low);
        if high == Leaf then done && z' == Zip(z.left, Branch(down, y, g, high), z.right)
        else !done && z' == Zip(Link(z.left, y, g, down), high, z.right)
  }

  lemma TurnsBelow(k: Key, z: Zip)
    requires z.mid.Branch?
    ensures z.mid.left == Leaf ==> TurnBelow(k, z, z, true)
    ensures z.mid.left != Leaf && Compare(k, z.mid.left.region) >= 0 ==> TurnBelow(k, z, LinkedRight(z), false)
    ensures z.mid.left != Leaf && Compare(k, z.mid.left.region) < 0 ==> var y := RotatedRight(z);
      if y.mid.left == Leaf then TurnBelow(k, z, y, true) else TurnBelow(k, z, LinkedRight(y), false)
  {}

  lemma TurnsAbove(k: Key, z: Zip)
    requires z.mid.Branch?
    ensures z.mid.right == Leaf ==> TurnAbove(k, z, z, true)
    ensures z.mid.right != Leaf && Compare(k, z.mid.right.region) <= 0 ==> TurnAbove(k, z, LinkedLeft(z), false)
    ensures z.mid.right != Leaf && Compare(k, z.mid.right.region) > 0 ==> var y := RotatedLeft(z);
      if y.mid.right == Leaf then TurnAbove(k, z, y, true) else TurnAbove(k, z, LinkedLeft(y), false)
  {}

  /** One turn of the search loop at a node t that lies above the key. */
  method SeekLeft(k: Key, t: Node, r: Node, ghost s0: Shape, ghost z: Zip, ghost hd: Node, ghost l: Node)
    returns (t': Node, r': Node, done: bool, ghost z': Zip)
    requires Cut(k, s0, z) && Linked(z, hd, l, t, r) && Compare(k, z.mid.region) < 0
    modifies r`left, Nodes(z.mid)`left, Nodes(z.mid)`right
    ensures Cut(k, s0, z') && Linked(z', hd, l, t', r')
    ensures r' == r || r' in Nodes(z.mid)
    ensures if done then z'.mid.left == Leaf && Compare(k, z'.mid.region) < 0 else z'.mid < z.mid
    ensures TurnBelow(k, z, z', done)
  {
    hide CutKeys, CutOrder, Search, Regs, TurnBelow;
    TurnsBelow(k, z);
    t', r', done, z' := t, r, true, z;
    assert Rep(t.left, z.mid.left);
    var y := t.left;
    if y == null { return; }
    if Compare(k, y.region) < 0 {
      CutRotateRight(k, s0, z);
      t' := RotateRight(t, z, hd, l, r);
      z' := RotatedRight(z);
      assert Rep(t'.left, z'.mid.left);
      if t'.left == null { return; }
    }
    done := false;
    CutLink(k, s0, z');
    r' := t';
    t' := LinkRight(t', r, z', hd, l);
    z' := LinkedRight(z');
  }

  /** One turn of the search loop at a node t that lies below the key. */
  method SeekRight(k: Key, t: Node, l: Node, ghost s0: Shape, ghost z: Zip, ghost hd: Node, ghost r: Node)
    returns (t': Node, l': Node, done: bool, ghost z': Zip)
    requires Cut(k, s0, z) && Linked(z, hd, l, t, r) && Compare(k, z.mid.region) > 0
    modifies l`right, Nodes(z.mid)`left, Nodes(z.mid)`right
    ensures Cut(k, s0, z') && Linked(z', hd, l', t', r)
    ensures l' == l || l' in Nodes(z.mid)
    ensures if done then z'.mid.right == Leaf && Compare(k, z'.mid.region) > 0 else z'.mid < z.mid
    ensures TurnAbove(k, z, z', done)
  {
    hide CutKeys, CutOrder, Search, Regs, TurnAbove;
    TurnsAbove(k, z);
    t', l', done, z' := t, l, true, z;
    assert Rep(t.right, z.mid.right);
    var y := t.right;
    if y == null { return; }
    if Compare(k, y.region) > 0 {
      CutRotateLeft(k, s0, z);
      t' := RotateLeft(t, z, hd, l, r);
      z' := RotatedLeft(z);
      assert Rep(t'.right, z'.mid.right);
      if t'.right == null { return; }
    }
    done := false;
    CutLink(k, s0, z');
    l' := t';
    t' := LinkLeft(t', l, z', hd, r);
    z' := LinkedLeft(z');
  }

  /** splay and splay_end: one loop, two keys. The node hd is the C function's local N. Whatever the
      regions in the tree are, it ends and loses none of them. */
  method Splay(k: Key, root: Node?, ghost s0: Shape) returns (t: Node?, ghost s: Shape)
    requires Rep(root, s0) && Proper(s0)
    modifies Nodes(s0)`left, Nodes(s0)`right
    ensures Rep(t, s) && Splayed(k, s0, s)
  {
    t, s := root, s0;
    if t == null { return; }
    hide CutKeys, CutOrder, Search, Regs, Order, Splayed, TurnBelow, TurnAbove;
    NodesAllocated(s0);
    var hd := new Node(t.region);
    var l: Node, r: Node := hd, hd;
    ghost var z := Zip(Nil, s0, Nil);
    CutWhole(k, s0);
    while true
      invariant Cut(k, s0, z) && Linked(z, hd, l, t, r)
      invariant fresh(hd) && {l, r} <= Nodes(s0) + {hd}
      decreases z.mid
    {
      var comp, done := Compare(k, t.region), true;
      if comp < 0 {
        t, r, done, z := SeekLeft(k, t, r, s0, z, hd, l);
      } else if comp > 0 {
        t, l, done, z := SeekRight(k, t, l, s0, z, hd, r);
      }
      if done { break; }
    }
    AssembledSplayed(k, s0, z);
    Assemble(hd, l, t, r, z);
    s := Assembled(z);
  }
}
