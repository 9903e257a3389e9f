/** The red-black tree: linked nodes with a shared black sentinel in place of every missing child. */
module RedBlackTrees {
  import opened Powers
  import opened TreeShape
  import opened RedBlackRules
  import opened TreeSearch

  datatype Iterator = Iterator(node: Node, nil: Node)

  /** Where the sentinel that all trees share is kept. */
  class SharedNil {
    var nil: Node?

    constructor ()
      ensures Valid() && nil == null
    {
      nil := null;
    }

    ghost predicate Valid()
      reads this, nil
    {
      nil != null ==> nil.color.Black? && nil.rank == 0.0
    }

    /** The first call makes the sentinel, black and linked to itself; every later call returns the same one. */
    method GetNil(anyKey: Key) returns (node: Node)
      requires Valid()
      modifies this
      ensures Valid() && node == nil && node.color.Black? && node.rank == 0.0
      ensures old(nil) != null ==> node == old(nil)
      ensures old(nil) == null ==> fresh(node) && node.left == node && node.right == node && node.parent == node
    {
      if nil == null {
        node := new Node(anyKey, 0.0);
        node.color := Black;
        node.left, node.right, node.parent := node, node, node;
        nil := node;
      }
      node := nil;
    }
  }

  // ----- deep copies

  ghost function Cells(ns: set<Node>): map<Node, Cell>
    reads ns
  {
    map n | n in ns :: Cell(n.color, n.parent, n.left, n.right)
  }

  /** The same keys and colors at the same places. */
  ghost predicate SameTree(s: Shape, t: Shape) {
    match s
    case Nil => t.Nil?
    case Branch(l, n, c, r) =>
      t.Branch? && t.color == c && t.node.data == n.data &&
      t.node.rank == n.rank && SameTree(l, t.left) && SameTree(r, t.right)
  }

  lemma {:induction false} SameRules(s: Shape, t: Shape, h: nat)
    requires SameTree(s, t) && Rules(s, h)
    ensures Rules(t, h) && Size(t) == Size(s)
  {
    if s.Branch? {
      var below := if s.color.Red? then h else h - 1;
      SameRules(s.left, t.left, below);
      SameRules(s.right, t.right, below);
    }
  }

  lemma {:induction false} SameNode(s: Shape, t: Shape, n: Node) returns (m: Node)
    requires SameTree(s, t) && n in Nodes(t)
    ensures m in Nodes(s) && m.data == n.data && m.rank == n.rank
  {
    if n == t.node {
      m := s.node;
    } else if n in Nodes(t.left) {
      m := SameNode(s.left, t.left, n);
    } else {
      m := SameNode(s.right, t.right, n);
    }
  }

  lemma SameOrder(lt: (Key, Key) -> bool, s: Shape, t: Shape)
    requires SameTree(s, t) && Ordered(lt, Nodes(s))
    ensures Ordered(lt, Nodes(t))
  {
    forall m, n | m in Nodes(t) && n in Nodes(t) && m.rank < n.rank
      ensures lt(m.data, n.data)
    {
      var m' := SameNode(s, t, m);
      var n' := SameNode(s, t, n);
    }
  }

  lemma SubtreeParts(v: View, s: Shape, p: Node, lo: real, hi: real)
    requires Linked(v, s, p, lo, hi) && v.nil !in v.cells
    ensures Root(v.nil, s) == v.nil <==> s.Nil?
    ensures s.Branch? ==>
              && lo < s.node.rank < hi && s.node in v.cells
              && v.cells[s.node] == Cell(s.color, p, Root(v.nil, s.left), Root(v.nil, s.right))
              && Linked(v, s.left, s.node, lo, s.node.rank) && Linked(v, s.right, s.node, s.node.rank, hi)
  {
  }

  /** Two copied subtrees under a copied node. */
  lemma CopyJoined(v: View, a: View, b: View, s: Shape, l: Shape, n: Node, r: Shape, p: Node, lo: real, hi: real)
    requires s.Branch? && SameTree(s.left, l) && SameTree(s.right, r) && n.data == s.node.data
    requires lo < n.rank == s.node.rank < hi
    requires Linked(a, l, n, lo, n.rank) && Linked(b, r, n, n.rank, hi) && a.nil == b.nil == v.nil
    requires n in v.cells && v.cells[n] == Cell(s.color, p, Root(v.nil, l), Root(v.nil, r))
    requires forall m :: m in a.cells ==> m in v.cells && v.cells[m] == a.cells[m]
    requires forall m :: m in b.cells ==> m in v.cells && v.cells[m] == b.cells[m]
    ensures var t := Branch(l, n, s.color, r);
            Linked(v, t, p, lo, hi) && SameTree(s, t) && Nodes(t) == Nodes(l) + {n} + Nodes(r)
  {
    LinkedFrame(a, v, l, n, lo, n.rank);
    LinkedFrame(b, v, r, n, n.rank, hi);
  }

  lemma CopyIsTree(v: View, w: View, lt: (Key, Key) -> bool, s: Shape, t: Shape)
    requires SameTree(s, t) && RedBlack(s) && Ordered(lt, Nodes(s))
    requires Linked(v, s, v.nil, 0.0, 1.0) && Linked(w, t, w.nil, 0.0, 1.0)
    ensures RedBlack(t) && Ordered(lt, Nodes(t)) && |Nodes(t)| == |Nodes(s)|
  {
    var h: nat :| Rules(s, h);
    SameRules(s, t, h);
    SameOrder(lt, s, t);
    SizeIsCardinality(v, s, v.nil, 0.0, 1.0);
    SizeIsCardinality(w, t, w.nil, 0.0, 1.0);
  }

  lemma CellOf(ns: set<Node>, n: Node)
    requires n in ns
    ensures n in Cells(ns) && Cells(ns)[n] == Cell(n.color, n.parent, n.left, n.right)
  {
  }

  lemma CellsJoined(ls: set<Node>, n: Node, rs: set<Node>)
    ensures var cells := Cells(ls + {n} + rs);
            && n in cells && cells[n] == Cell(n.color, n.parent, n.left, n.right)
            && (forall m :: m in Cells(ls) ==> m in cells && cells[m] == Cells(ls)[m])
            && (forall m :: m in Cells(rs) ==> m in cells && cells[m] == Cells(rs)[m])
  {
  }

  lemma NothingCopied(nil: Node, parent: Node, lo: real, hi: real)
    ensures Nodes(Nil) == {} && SameTree(Nil, Nil) && Linked(Snapshot(nil, nil, Cells({})), Nil, parent, lo, hi)
  {
  }

  /** A copy of the subtree `s` out of new nodes, hung under `parent`. */
  method CopyRecursive(nil: Node, node: Node, parent: Node, ghost v: View, ghost s: Shape, ghost p: Node,
      ghost lo: real, ghost hi: real)
    returns (copy: Node, ghost t: Shape, ghost made: set<Node>)
    requires v.nil == nil && nil !in v.cells && v.cells == Cells(v.cells.Keys)
    requires Linked(v, s, p, lo, hi) && node == Root(nil, s)
    ensures fresh(made) && made == Nodes(t) && copy == Root(nil, t) && SameTree(s, t)
    ensures Linked(Snapshot(nil, copy, Cells(made)), t, parent, lo, hi)
    decreases s
  {
    hide Linked, Nodes, SameTree, Cells;
    SubtreeParts(v, s, p, lo, hi);
    if node == nil {
      NothingCopied(nil, parent, lo, hi);
      return nil, Nil, {};
    }
    CellOf(v.cells.Keys, node);
    var newNode := new Node(node.data, node.rank);
    newNode.color := node.color;
    newNode.parent := parent;
    var left, l, ls := CopyRecursive(nil, node.left, newNode, v, s.left, node, lo, node.rank);
    CellOf(v.cells.Keys, node);
    var right, r, rs := CopyRecursive(nil, node.right, newNode, v, s.right, node, node.rank, hi);
    AttachCopies(nil, newNode, left, right, s, l, r, lo, hi);
    copy, t, made := newNode, Branch(l, newNode, s.color, r), ls + {newNode} + rs;
  }

  /** The copied subtrees go under the copied node. */
  method AttachCopies(nil: Node, newNode: Node, left: Node, right: Node, ghost s: Shape, ghost l: Shape, ghost r: Shape,
      ghost lo: real, ghost hi: real)
    requires s.Branch? && SameTree(s.left, l) && SameTree(s.right, r) && left == Root(nil, l) && right == Root(nil, r)
    requires newNode.data == s.node.data && lo < newNode.rank == s.node.rank < hi && newNode.color == s.color
    requires newNode.parent != null
    requires newNode !in Nodes(l) && newNode !in Nodes(r)
    requires Linked(Snapshot(nil, left, Cells(Nodes(l))), l, newNode, lo, newNode.rank)
    requires Linked(Snapshot(nil, right, Cells(Nodes(r))), r, newNode, newNode.rank, hi)
    modifies newNode`left, newNode`right
    ensures var t := Branch(l, newNode, s.color, r); var made := Nodes(l) + {newNode} + Nodes(r);
            Nodes(t) == made && SameTree(s, t) && Linked(Snapshot(nil, newNode, Cells(made)), t, newNode.parent, lo, hi)
  {
    hide Linked, Nodes, SameTree, Cells;
    ghost var a, b := Snapshot(nil, left, Cells(Nodes(l))), Snapshot(nil, right, Cells(Nodes(r)));
    newNode.left := left;
    newNode.right := right;
    CellsJoined(Nodes(l), newNode, Nodes(r));
    CopyJoined(Snapshot(nil, newNode, Cells(Nodes(l) + {newNode} + Nodes(r))),
        a, b, s, l, newNode, r, newNode.parent, lo, hi);
  }

  class RedBlackTree {
    const nil: Node
    const comp: (Key, Key) -> bool
    var root: Node
    var size: nat
    ghost var repr: set<Node>
    ghost var shape: Shape
    /** How often the tree has been rotated. */
    ghost var rotations: nat

    ghost function View(): View
      reads this`root, this`repr, repr
    {
      Snapshot(nil, root, map n | n in repr :: Cell(n.color, n.parent, n.left, n.right))
    }

    /** The links of the tree, looked at from the subtree `s` in its surroundings `ctx`. */
    ghost predicate At(ctx: Context, s: Shape)
      reads this`root, this`repr, repr, nil`color
    {
      && nil !in repr && nil.color.Black?
      && All(ctx, s) == repr
      && Focus(View(), ctx, s)
    }

    lemma Up(ctx: Context, s: Shape)
      requires ctx.Frame?
      ensures At(ctx, s) <==> At(ctx.up, Join(ctx.side, s, ctx.node, ctx.color, ctx.sibling))
    {
      WholeUp(View(), ctx, s);
    }

    /** What the pointers around the focus read. */
    lemma Pointers(ctx: Context, s: Shape)
      requires At(ctx, s)
      ensures ctx.Top? ==> root == Root(nil, s)
      ensures s.Branch? ==>
                && s.node in repr && s.node.color == s.color && s.node.parent == Parent(nil, ctx)
                && s.node.left == Root(nil, s.left) && s.node.right == Root(nil, s.right)
      ensures ctx.Frame? ==>
                && ctx.node in repr && ctx.node.color == ctx.color && ctx.node.parent == Parent(nil, ctx.up)
                && ctx.node.left == (if ctx.side.Left? then Root(nil, s) else Root(nil, ctx.sibling))
                && ctx.node.right == (if ctx.side.Left? then Root(nil, ctx.sibling) else Root(nil, s))
                && (ctx.sibling.Branch? ==> ctx.sibling.node in repr && ctx.sibling.node != Root(nil, s))
                && (s.Branch? ==> s.node != ctx.node && s.node != Root(nil, ctx.sibling))
    {
    }

    method RelinkLeft(x: Node, ghost ctx: Context, ghost b: Shape)
      requires x in repr && x.right in repr && x.right != x && x.right.left == Root(nil, b) && nil !in repr
      requires b.Branch? ==> b.node in repr && b.node != x && b.node != x.right
      requires x.parent == Parent(nil, ctx)
      requires ctx.Frame? ==>
                 ctx.node in repr && ctx.node != x && ctx.node != x.right && (b.Branch? ==> ctx.node != b.node)
      requires ctx.Frame? ==> if ctx.side.Left? then ctx.node.left == x else ctx.node.right == x && ctx.node.left != x
      modifies this`root, repr
      ensures RotatedLinks(old(View()), View(), ctx, Left, x, b, old(x.right))
    {
      var y := x.right;
      x.right := y.left;
      if y.left != nil {
        y.left.parent := x;
      }
      y.parent := x.parent;
      if x.parent == nil {
        root := y;
      } else if x == x.parent.left {
        x.parent.left := y;
      } else {
        x.parent.right := y;
      }
      y.left := x;
      x.parent := y;
    }

    method RelinkRight(y: Node, ghost ctx: Context, ghost b: Shape)
      requires y in repr && y.left in repr && y.left != y && y.left.right == Root(nil, b) && nil !in repr
      requires b.Branch? ==> b.node in repr && b.node != y && b.node != y.left
      requires y.parent == Parent(nil, ctx)
      requires ctx.Frame? ==>
                 ctx.node in repr && ctx.node != y && ctx.node != y.left && (b.Branch? ==> ctx.node != b.node)
      requires ctx.Frame? ==> if ctx.side.Left? then ctx.node.left == y else ctx.node.right == y && ctx.node.left != y
      modifies this`root, repr
      ensures RotatedLinks(old(View()), View(), ctx, Right, y, b, old(y.left))
    {
      var x := y.left;
      y.left := x.right;
      if x.right != nil {
        x.right.parent := y;
      }
      x.parent := y.parent;
      if y.parent == nil {
        root := x;
      } else if y == y.parent.left {
        y.parent.left := x;
      } else {
        y.parent.right := x;
      }
      x.right := y;
      y.parent := x;
    }

    method RotateLeft(x: Node, ghost ctx: Context, ghost s: Shape)
      requires At(ctx, s) && s.Branch? && s.right.Branch? && x == s.node
      modifies this`root, this`rotations, repr
      ensures At(ctx, Rotate(Left, s)) && rotations == old(rotations) + 1
    {
      rotations := rotations + 1;
      ghost var v := View();
      Pointers(ctx, s);
      Pointers(Frame(Right, x, s.color, s.left, ctx), s.right)
        by { Up(Frame(Right, x, s.color, s.left, ctx), s.right); }
      RotationNeighbours(v, ctx, Left, s);
      RotateNodes(Left, s);
      RelinkLeft(x, ctx, s.right.left);
      Rotated(v, View(), ctx, Left, s);
    }

    method RotateRight(y: Node, ghost ctx: Context, ghost s: Shape)
      requires At(ctx, s) && s.Branch? && s.left.Branch? && y == s.node
      modifies this`root, this`rotations, repr
      ensures At(ctx, Rotate(Right, s)) && rotations == old(rotations) + 1
    {
      rotations := rotations + 1;
      ghost var v := View();
      Pointers(ctx, s);
      Pointers(Frame(Left, y, s.color, s.right, ctx), s.left) by { Up(Frame(Left, y, s.color, s.right, ctx), s.left); }
      RotationNeighbours(v, ctx, Right, s);
      RotateNodes(Right, s);
      RelinkRight(y, ctx, s.left.right);
      Rotated(v, View(), ctx, Right, s);
    }

    method SetColor(n: Node, c: Color, ghost ctx: Context, ghost s: Shape)
      requires At(ctx, s) && s.Branch? && n == s.node
      modifies n`color
      ensures At(ctx, s.(color := c))
    {
      ghost var v := View();
      n.color := c;
      assert View() == v.(cells := v.cells[n := v.cells[n].(color := c)]);
      Painted(v, View(), ctx, s, c);
    }

    /** Rank order is key order, and the count is exact; no step of a repair touches this. */
    ghost predicate Kept()
      reads this`size, this`repr
    {
      StrictWeakOrder(comp) && Ordered(comp, repr) && size == |repr|
    }

    /** The search order, a black root, no red node with a red child, equal black heights,
        parent and child links that agree, and an exact size. */
    ghost predicate Valid()
      reads this, repr, nil`color
    {
      Kept() && At(Top, shape) && RedBlack(shape)
    }

    constructor (nil: Node, comp: (Key, Key) -> bool)
      requires StrictWeakOrder(comp) && nil.color.Black? && nil.rank == 0.0
      ensures Valid() && repr == {} && rotations == 0 && this.nil == nil && this.comp == comp
    {
      this.nil, this.comp := nil, comp;
      root, size, rotations := nil, 0, 0;
      repr, shape := {}, Nil;
      new;
      assert Rules(shape, 0);
    }

    lemma Parts()
      requires At(Top, shape)
      ensures Linked(View(), shape, nil, 0.0, 1.0) && root == Root(nil, shape) && Nodes(shape) == repr
      ensures View() == Snapshot(nil, root, Cells(repr)) && View().cells.Keys == repr && nil !in repr && nil.rank == 0.0
    {
    }

    lemma ViewIsCells()
      ensures View() == Snapshot(nil, root, Cells(repr))
    {
    }

    lemma Assembled()
      requires Linked(View(), shape, nil, 0.0, 1.0) && root == Root(nil, shape) && Nodes(shape) == repr
      requires nil !in repr && nil.rank == 0.0 && nil.color.Black?
      ensures At(Top, shape)
    {
    }

    /** Taking over a finished tree. */
    method Install(r: Node, ghost t: Shape, ghost made: set<Node>)
      requires Linked(Snapshot(nil, r, Cells(made)), t, nil, 0.0, 1.0) && r == Root(nil, t) && Nodes(t) == made
      requires nil !in made && nil.rank == 0.0 && nil.color.Black?
      requires StrictWeakOrder(comp) && Ordered(comp, made) && RedBlack(t) && size == |made|
      modifies this`root, this`shape, this`repr
      ensures Valid() && shape == t && repr == made
    {
      hide Linked, Nodes, Focus, All, RedBlack, Ordered, StrictWeakOrder, At;
      root, shape, repr := r, t, made;
      ViewIsCells();
      Assembled();
    }

    /** The deep copy: the same keys and colors at the same places, in new nodes; the original is left alone. */
    constructor Copy(other: RedBlackTree)
      requires other.Valid()
      ensures Valid() && fresh(repr) && size == other.size && SameTree(other.shape, shape)
      ensures nil == other.nil && comp == other.comp
    {
      nil, comp := other.nil, other.comp;
      root, size, rotations := other.nil, other.size, 0;
      repr, shape := {}, Nil;
      new;
      hide Linked, Nodes, Focus, All, SameTree, RedBlack, Ordered, StrictWeakOrder, View, Cells, At;
      ghost var v, s := other.View(), other.shape;
      other.Parts();
      assert RedBlack(s) && Ordered(comp, Nodes(s)) && |Nodes(s)| == size;
      var r, t, made := CopyRecursive(nil, other.root, nil, v, s, nil, 0.0, 1.0);
      ghost var w := Snapshot(nil, r, Cells(made));
      CopyIsTree(v, w, comp, s, t);
      Install(r, t, made);
    }

    /** What validity means for the fields of each node: links in both directions, keys on the proper sides, a black
        root, and no red node with a red child. */
    lemma ValidMeans(n: Node)
      requires Valid() && n in repr
      ensures root in repr && root.color.Black? && root.parent == nil
      ensures n.left != null && n.right != null && n.parent != null
      ensures n.left != nil ==> n.left in repr && n.left.parent == n && comp(n.left.data, n.data)
      ensures n.right != nil ==> n.right in repr && n.right.parent == n && comp(n.data, n.right.data)
      ensures n != root ==> n.parent in repr && (n == n.parent.left || n == n.parent.right)
      ensures n.color.Red? ==> n.left.color.Black? && n.right.color.Black?
    {
      ghost var ctx, s := Locate(shape, n);
      Pointers(Top, shape);
      WholeTop(View(), ctx, s);
      Pointers(ctx, s);
      Descend(View(), Left, ctx, s);
      Descend(View(), Right, ctx, s);
      Pointers(Into(Left, ctx, s), s.left);
      Pointers(Into(Right, ctx, s), s.right);
      NodesInside(View(), s, Parent(nil, ctx), Lo(ctx), Hi(ctx));
      ghost var h := FocusRules(ctx, s);
    }

    /** And all ways from the root down to an empty place meet the same number of black nodes. */
    lemma EqualBlackDepths(a: Context, b: Context)
      requires Valid() && Plug(a, Nil) == shape && Plug(b, Nil) == shape
      ensures BlackDepth(a) == BlackDepth(b)
    {
      var total: nat :| Rules(shape, total);
      RulesBelow(a, Nil, total);
      RulesBelow(b, Nil, total);
    }

    /** The logarithmic bound: the height is at most 2 log2(size + 1). */
    lemma HeightIsLogarithmic()
      requires Valid()
      ensures Pow2(Height(shape)) <= (size + 1) * (size + 1)
    {
      var h: nat :| Rules(shape, h);
      HeightBound(shape, h);
      SizeIsCardinality(View(), shape, nil, 0.0, 1.0);
    }

    /** No place in the tree is further than 2 log2(size + 1) links below the root. */
    lemma DepthIsLogarithmic(ctx: Context)
      requires Valid() && Depth(ctx) <= Height(shape)
      ensures Pow2(Depth(ctx)) <= (size + 1) * (size + 1)
    {
      HeightIsLogarithmic();
      Pow2Monotone(Depth(ctx), Height(shape));
    }

    // ----- insertion repair

    /** Case 1 of the repair, on either side: the parent and the uncle become black, the grandparent red. */
    method RecolorFamily(parent: Node, uncle: Node, grandpa: Node, ghost ctx: Context, ghost s: Shape)
      requires At(ctx, s) && ctx.Frame? && ctx.up.Frame? && ctx.up.sibling.Branch?
      requires parent == ctx.node && grandpa == ctx.up.node && uncle == ctx.up.sibling.node
      modifies parent`color, uncle`color, grandpa`color
      ensures At(ctx.up.up,
                 Join(ctx.up.side, Join(ctx.side, s, parent, Black, ctx.sibling), grandpa, Red,
                      Blackened(ctx.up.sibling)))
    {
      ghost var side, up := ctx.up.side, ctx.up.up;
      ghost var p := Join(ctx.side, s, parent, ctx.color, ctx.sibling);
      Up(ctx, s);
      SetColor(parent, Black, ctx.up, p);
      p := p.(color := Black);
      Sideways(side, p, grandpa, ctx.up.color, ctx.up.sibling, up);
      SetColor(uncle, Black, Frame(side.Other(), grandpa, ctx.up.color, p, up), ctx.up.sibling);
      ghost var u := Blackened(ctx.up.sibling);
      Up(Frame(side.Other(), grandpa, ctx.up.color, p, up), u);
      SetColor(grandpa, Red, up, Join(side, p, grandpa, ctx.up.color, u));
    }

    /** The recoloring of case 2b, on either side: the parent becomes black, the grandparent red. */
    method RecolorOuter(parent: Node, grandpa: Node, ghost ctx: Context, ghost s: Shape)
      requires At(ctx, s) && ctx.Frame? && ctx.up.Frame? && ctx.side == ctx.up.side
      requires parent == ctx.node && grandpa == ctx.up.node
      modifies parent`color, grandpa`color
      ensures At(ctx.up.up, Join(ctx.side, Join(ctx.side, s, parent, Black, ctx.sibling), grandpa, Red, ctx.up.sibling))
    {
      ghost var p := Join(ctx.side, s, parent, ctx.color, ctx.sibling);
      Up(ctx, s);
      SetColor(parent, Black, ctx.up, p);
      p := p.(color := Black);
      Up(ctx.up, p);
      SetColor(grandpa, Red, ctx.up.up, Join(ctx.side, p, grandpa, ctx.up.color, ctx.up.sibling));
    }

    lemma Sideways(side: Side, near: Shape, n: Node, c: Color, far: Shape, up: Context)
      ensures At(Frame(side, n, c, far, up), near) <==> At(Frame(side.Other(), n, c, near, up), far)
    {
      Up(Frame(side, n, c, far, up), near);
      Up(Frame(side.Other(), n, c, near, up), far);
    }

    /** The family of a red node under a red parent, as the pointers show it. */
    lemma Family(ctx: Context, s: Shape, h: nat)
      requires At(ctx, s) && RedFits(ctx, s, h) && ctx.Frame? && ctx.color.Red?
      ensures ctx.up.Frame?
      ensures s.node.parent == ctx.node && ctx.node.parent == ctx.up.node
      ensures (ctx.node.left == s.node) == ctx.side.Left? && (ctx.node.right == s.node) == ctx.side.Right?
      ensures (ctx.up.node.left == ctx.node) == ctx.up.side.Left?
      ensures (if ctx.up.side.Left? then ctx.up.node.right else ctx.up.node.left) == Root(nil, ctx.up.sibling)
      ensures Root(nil, ctx.up.sibling).color == ColorOf(ctx.up.sibling)
      ensures ctx.node in repr && ctx.up.node in repr && (ctx.up.sibling.Branch? ==> ctx.up.sibling.node in repr)
    {
      RedParent(ctx, h);
      Pointers(ctx, s);
      ghost var p := Join(ctx.side, s, ctx.node, ctx.color, ctx.sibling);
      Up(ctx, s);
      Pointers(ctx.up, p);
      Sideways(ctx.up.side, p, ctx.up.node, ctx.up.color, ctx.up.sibling, ctx.up.up);
      Pointers(Frame(ctx.up.side.Other(), ctx.up.node, ctx.up.color, p, ctx.up.up), ctx.up.sibling);
    }

    /** Case A of one round of the repair: the parent is the grandparent's left child. */
    method InsertFixupLeft(z: Node, ghost ctx0: Context, ghost s0: Shape, ghost h0: nat)
      returns (node: Node, ghost ctx: Context, ghost s: Shape, ghost h: nat)
      requires At(ctx0, s0) && RedFits(ctx0, s0, h0) && z == s0.node && ctx0.Frame? && ctx0.color.Red?
      requires ctx0.up.Frame? ==> ctx0.up.side.Left?
      modifies this`root, this`rotations, repr
      ensures At(ctx, s) && RedFits(ctx, s, h) && node == s.node && Depth(ctx) < Depth(ctx0)
      ensures old(rotations) <= rotations <= old(rotations) + 2
      ensures rotations > old(rotations) ==> ctx.Frame? && ctx.color.Black?
    {
      hide Focus, All, Rules, CtxRules;
      node, ctx, s, h := z, ctx0, s0, h0;
      Family(ctx, s, h);
      var parent := node.parent;
      var grandpa := parent.parent;
      var uncle := grandpa.right;
      if uncle.color == Red {
        RecoloredFits(ctx, s, h);
        RecolorFamily(parent, uncle, grandpa, ctx, s);
        ctx, s, h := ctx.up.up,
          Join(ctx.up.side, Join(ctx.side, s, parent, Black, ctx.sibling), grandpa, Red,
               Blackened(ctx.up.sibling)), h + 1;
        node := grandpa;
      } else {
        if node == parent.right {
          InnerTurned(ctx, s, h);
          Up(ctx, s);
          node := parent;
          RotateLeft(node, ctx.up, Join(Right, s, parent, Red, ctx.sibling));
          ctx, s := Frame(Left, s.node, Red, s.right, ctx.up), Join(Left, ctx.sibling, ctx.node, Red, s.left);
          Up(ctx, s);
          Family(ctx, s, h);
          parent := node.parent;
          grandpa := parent.parent;
        }
        OuterFits(ctx, s, h);
        RecolorOuter(parent, grandpa, ctx, s);
        RotateRight(grandpa, ctx.up.up,
          Join(Left, Join(Left, s, parent, Black, ctx.sibling), grandpa, Red, ctx.up.sibling));
        ctx := Frame(Left, parent, Black, Join(Left, ctx.sibling, grandpa, Red, ctx.up.sibling), ctx.up.up);
        Up(ctx, s);
      }
    }

    /** Case B of one round of the repair: the parent is the grandparent's right child. */
    method InsertFixupRight(z: Node, ghost ctx0: Context, ghost s0: Shape, ghost h0: nat)
      returns (node: Node, ghost ctx: Context, ghost s: Shape, ghost h: nat)
      requires At(ctx0, s0) && RedFits(ctx0, s0, h0) && z == s0.node && ctx0.Frame? && ctx0.color.Red?
      requires ctx0.up.Frame? ==> ctx0.up.side.Right?
      modifies this`root, this`rotations, repr
      ensures At(ctx, s) && RedFits(ctx, s, h) && node == s.node && Depth(ctx) < Depth(ctx0)
      ensures old(rotations) <= rotations <= old(rotations) + 2
      ensures rotations > old(rotations) ==> ctx.Frame? && ctx.color.Black?
    {
      hide Focus, All, Rules, CtxRules;
      node, ctx, s, h := z, ctx0, s0, h0;
      Family(ctx, s, h);
      var parent := node.parent;
      var grandpa := parent.parent;
      var uncle := grandpa.left;
      if uncle.color == Red {
        RecoloredFits(ctx, s, h);
        RecolorFamily(parent, uncle, grandpa, ctx, s);
        ctx, s, h := ctx.up.up,
          Join(ctx.up.side, Join(ctx.side, s, parent, Black, ctx.sibling), grandpa, Red,
               Blackened(ctx.up.sibling)), h + 1;
        node := grandpa;
      } else {
        if node == parent.left {
          InnerTurned(ctx, s, h);
          Up(ctx, s);
          node := parent;
          RotateRight(node, ctx.up, Join(Left, s, parent, Red, ctx.sibling));
          ctx, s := Frame(Right, s.node, Red, s.left, ctx.up), Join(Right, ctx.sibling, ctx.node, Red, s.right);
          Up(ctx, s);
          Family(ctx, s, h);
          parent := node.parent;
          grandpa := parent.parent;
        }
        OuterFits(ctx, s, h);
        RecolorOuter(parent, grandpa, ctx, s);
        RotateLeft(grandpa, ctx.up.up,
          Join(Right, Join(Right, s, parent, Black, ctx.sibling), grandpa, Red, ctx.up.sibling));
        ctx := Frame(Right, parent, Black, Join(Right, ctx.sibling, grandpa, Red, ctx.up.sibling), ctx.up.up);
        Up(ctx, s);
      }
    }

    method InsertFixup(z: Node, ghost ctx0: Context, ghost s0: Shape, ghost h0: nat)
      requires Kept() && At(ctx0, s0) && RedFits(ctx0, s0, h0) && z == s0.node
      modifies this`root, this`shape, this`rotations, repr
      ensures Valid() && old(rotations) <= rotations <= old(rotations) + 2
    {
      hide Focus, All, Rules, CtxRules, Ordered, StrictWeakOrder;
      var node := z;
      ghost var ctx, s, h := ctx0, s0, h0;
      Pointers(ctx, s);
      while node.parent.color == Red
        invariant At(ctx, s) && RedFits(ctx, s, h) && node == s.node
        invariant node.parent == Parent(nil, ctx) && node.parent.color == (if ctx.Top? then Black else ctx.color)
        invariant old(rotations) <= rotations <= old(rotations) + 2
        invariant rotations > old(rotations) ==> ctx.Frame? && ctx.color.Black?
        decreases Depth(ctx)
      {
        Family(ctx, s, h);
        if node.parent == node.parent.parent.left {
          node, ctx, s, h := InsertFixupLeft(node, ctx, s, h);
        } else {
          node, ctx, s, h := InsertFixupRight(node, ctx, s, h);
        }
        Pointers(ctx, s);
      }
      ghost var total := InsertionDone(ctx, s, h);
      AtTop(ctx, s);
      BlackenRoot(Plug(ctx, s));
    }

    /** Painting the root black, the last step of either repair. */
    method BlackenRoot(ghost s: Shape)
      requires At(Top, s) && s.Branch?
      modifies this`shape, repr
      ensures At(Top, shape) && shape == Blackened(s)
    {
      Pointers(Top, s);
      SetColor(root, Black, Top, s);
      shape := Blackened(s);
    }

    lemma AtTop(ctx: Context, s: Shape)
      requires At(ctx, s)
      ensures At(Top, Plug(ctx, s))
    {
      WholeTop(View(), ctx, s);
    }

    // ----- the tree as a set of keys

    predicate Equivalent(x: Key, y: Key) {
      Incomparable(comp, x, y)
    }

    /** The search for `key` goes one link down in each of its `steps`. It stops at a node, or at the empty place `ctx`
        where a node with this key would stand. */
    method FindNode(key: Key) returns (n: Node, ghost ctx: Context, ghost s: Shape, ghost steps: nat)
      requires Valid()
      ensures n == nil ==> forall m :: m in repr ==> !Equivalent(m.data, key)
      ensures n != nil ==> n in repr && Equivalent(n.data, key)
      ensures At(ctx, s) && n == Root(nil, s) && (n == nil ==> s.Nil?) && Separates(comp, repr, ctx, key)
      ensures steps == Depth(ctx) <= Height(shape) && Pow2(steps) <= (size + 1) * (size + 1)
    {
      hide Ready, Separates, Focus, All, Ordered, StrictWeakOrder, RedBlack;
      var current: Node := root;
      ghost var v := View();
      ctx, s, steps := Top, shape, 0;
      IsReady(v, comp, ctx, s);
      SearchStarts(v, comp, s, key);
      while current != nil
        invariant Ready(v, comp)
        invariant Searching(v, comp, ctx, s, key, current)
        invariant v == View() && steps == Depth(ctx) && steps + Height(s) <= Height(shape)
        decreases Height(s)
      {
        SearchDescends(v, comp, ctx, s, key, current);
        var curKey := current.data;
        if comp(key, curKey) {
          current, ctx, s, steps := current.left, Into(Left, ctx, s), s.left, steps + 1;
        } else if comp(curKey, key) {
          current, ctx, s, steps := current.right, Into(Right, ctx, s), s.right, steps + 1;
        } else {
          DepthIsLogarithmic(ctx);
          return current, ctx, s, steps;
        }
      }
      RootIsNil(v, ctx, s);
      SearchFails(v, comp, ctx, s, key);
      DepthIsLogarithmic(ctx);
      return nil, ctx, s, steps;
    }

    /** `Find` wraps the found node in an iterator whose sentinel is that same node. */
    method Find(key: Key) returns (it: Iterator)
      requires Valid()
      ensures it.nil == it.node
      ensures it.node == nil ==> forall m :: m in repr ==> !Equivalent(m.data, key)
      ensures it.node != nil ==> it.node in repr && Equivalent(it.node.data, key)
    {
      var n;
      ghost var ctx, s;
      ghost var steps;
      n, ctx, s, steps := FindNode(key);
      it := Iterator(n, n);
    }

    /** The descent ends at the hole `ctx` where the nodes less than `key` end, after `steps` links. */
    method LowerBoundImpl(key: Key) returns (result: Node, ghost ctx: Context, ghost s: Shape, ghost steps: nat)
      requires Valid()
      ensures IsLowerBound(comp, repr, nil, key, result)
      ensures At(ctx, s) && s.Nil? && BorderWithin(View(), LessThan(comp, repr, key), ctx, s)
      ensures steps == Depth(ctx) <= Height(shape) && Pow2(steps) <= (size + 1) * (size + 1)
    {
      hide Ready, IsCut, FirstAfter, IsLowerBound, Focus, All, Ordered, StrictWeakOrder, RedBlack;
      Pointers(Top, shape);
      var current: Node := root;
      result := nil;
      ghost var v := View();
      ctx, s, steps := Top, shape, 0;
      ghost var left := LessThan(comp, repr, key);
      IsReady(v, comp, ctx, s);
      LessThanIsCut(v, comp, key);
      BorderStarts(v, left, s);
      while current != nil
        invariant BorderWithin(v, left, ctx, s) && EndsAt(v, ctx, result) && current == Root(nil, s)
        invariant v == View() && steps == Depth(ctx) && steps + Height(s) <= Height(shape)
        decreases Height(s)
      {
        BorderDescends(v, left, ctx, s);
        if comp(current.data, key) {
          current, ctx, s, steps := current.right, Into(Right, ctx, s), s.right, steps + 1;
        } else {
          result := current;
          current, ctx, s, steps := current.left, Into(Left, ctx, s), s.left, steps + 1;
        }
      }
      BorderFound(v, left, ctx, s);
      RootIsNil(v, ctx, s);
      DepthIsLogarithmic(ctx);
    }

    /** The descent ends at the hole `ctx` where the nodes not greater than `key` end, after `steps` links. */
    method UpperBoundImpl(key: Key) returns (result: Node, ghost ctx: Context, ghost s: Shape, ghost steps: nat)
      requires Valid()
      ensures IsUpperBound(comp, repr, nil, key, result)
      ensures At(ctx, s) && s.Nil? && BorderWithin(View(), NotGreaterThan(comp, repr, key), ctx, s)
      ensures steps == Depth(ctx) <= Height(shape) && Pow2(steps) <= (size + 1) * (size + 1)
    {
      hide Ready, IsCut, FirstAfter, IsUpperBound, Focus, All, Ordered, StrictWeakOrder, RedBlack;
      Pointers(Top, shape);
      var current: Node := root;
      result := nil;
      ghost var v := View();
      ctx, s, steps := Top, shape, 0;
      ghost var left := NotGreaterThan(comp, repr, key);
      IsReady(v, comp, ctx, s);
      NotGreaterThanIsCut(v, comp, key);
      BorderStarts(v, left, s);
      while current != nil
        invariant BorderWithin(v, left, ctx, s) && EndsAt(v, ctx, result) && current == Root(nil, s)
        invariant v == View() && steps == Depth(ctx) && steps + Height(s) <= Height(shape)
        decreases Height(s)
      {
        BorderDescends(v, left, ctx, s);
        if comp(key, current.data) {
          result := current;
          current, ctx, s, steps := current.left, Into(Left, ctx, s), s.left, steps + 1;
        } else {
          current, ctx, s, steps := current.right, Into(Right, ctx, s), s.right, steps + 1;
        }
      }
      BorderFound(v, left, ctx, s);
      RootIsNil(v, ctx, s);
      DepthIsLogarithmic(ctx);
    }

    /** Going left from a node until there is no left child. */
    method Leftmost(start: Node, ghost ctx: Context, ghost s: Shape)
      returns (node: Node, ghost inner: Context, ghost t: Shape)
      requires At(ctx, s) && s.Branch? && start == s.node
      ensures t.Branch? && t.left.Nil? && node == t.node && node in repr
      ensures AllLeft(inner) && Plug(inner, t) == s && At(Append(inner, ctx), t)
    {
      ghost var v := View();
      node, inner, t := start, Top, s;
      LeftChild(v, ctx, s);
      while node.left != nil
        invariant Whole(v, Append(inner, ctx), t) && t.Branch? && node == t.node && node in repr
        invariant node.left == Root(nil, t.left) && (node.left == nil <==> t.left.Nil?)
        invariant AllLeft(inner) && Plug(inner, t) == s
        decreases t
      {
        LeftChild(v, Append(inner, ctx), t);
        node, inner, t := node.left, Into(Left, inner, t), t.left;
      }
    }

    /** Going right from a node until there is no right child. */
    method Rightmost(start: Node, ghost ctx: Context, ghost s: Shape)
      returns (node: Node, ghost inner: Context, ghost t: Shape)
      requires At(ctx, s) && s.Branch? && start == s.node
      ensures t.Branch? && t.right.Nil? && node == t.node && node in repr
      ensures AllRight(inner) && Plug(inner, t) == s && At(Append(inner, ctx), t)
    {
      ghost var v := View();
      node, inner, t := start, Top, s;
      RightChild(v, ctx, s);
      while node.right != nil
        invariant Whole(v, Append(inner, ctx), t) && t.Branch? && node == t.node && node in repr
        invariant node.right == Root(nil, t.right) && (node.right == nil <==> t.right.Nil?)
        invariant AllRight(inner) && Plug(inner, t) == s
        decreases t
      {
        RightChild(v, Append(inner, ctx), t);
        node, inner, t := node.right, Into(Right, inner, t), t.right;
      }
    }

    method GetMinimum(start: Node, ghost ctx: Context, ghost s: Shape)
      returns (node: Node, ghost inner: Context, ghost t: Shape)
      requires At(ctx, s) && start == Root(nil, s)
      ensures s.Nil? ==> node == nil
      ensures s.Branch? ==> node != nil && t.Branch? && t.left.Nil? && node == t.node
      ensures s.Branch? ==> AllLeft(inner) && Plug(inner, t) == s && At(Append(inner, ctx), t)
    {
      RootIsNil(View(), ctx, s);
      inner, t := Top, s;
      if start == nil {
        return nil, inner, t;
      }
      node, inner, t := Leftmost(start, ctx, s);
    }

    method Begin() returns (it: Iterator)
      requires Valid()
      ensures it.nil == nil && IsLeast(comp, repr, nil, it.node)
    {
      IsReady(View(), comp, Top, shape);
      ghost var inner, t;
      var node;
      node, inner, t := GetMinimum(root, Top, shape);
      if shape.Branch? {
        LeftmostIsLeast(View(), comp, inner, t);
      }
      it := Iterator(node, nil);
    }

    /** The step of `++`. Iterators carry the sentinel they were made with in `itNil`; those that
        `Find` returns carry the found node itself there, and then a step does not move at all. */
    method GetSuccessor(start: Node, itNil: Node) returns (r: Node)
      requires Valid() && (start in repr || start == nil)
      requires itNil == nil || itNil == start
      ensures start == itNil ==> r == itNil
      ensures start != itNil ==> IsNext(comp, repr, nil, start, r)
      ensures start != itNil ==> (r == nil <==> forall m :: m in repr ==> !comp(start.data, m.data))
    {
      if start == itNil {
        return itNil;
      }
      ghost var v := View();
      IsReady(v, comp, Top, shape);
      ghost var ctx, s := Locate(shape, start);
      WholeTop(v, ctx, s);
      Descend(v, Right, ctx, s);
      RootIsNil(v, Into(Right, ctx, s), s.right);
      if start.right != nil {
        r := LeftmostOnRight(start, ctx, s);
      } else {
        r := ClimbFromRight(start, ctx, s);
      }
    }

    /** Advancing an iterator at a real node reaches the successor exactly when the iterator carries the
        tree's sentinel; one that came from a successful `Find` stays where it is. */
    method Increment(it: Iterator) returns (it': Iterator)
      requires Valid() && it.node in repr && (it.nil == nil || it.nil == it.node)
      ensures Valid()
      ensures IsNext(comp, repr, nil, it.node, it'.node) <==> it.nil == nil
      ensures it'.nil == it.nil && (it.nil != nil ==> it' == it)
    {
      var r := GetSuccessor(it.node, it.nil);
      it' := it.(node := r);
    }

    /** The right child exists: one step right, then left to the end. The duplicate check in between never fires. */
    method LeftmostOnRight(start: Node, ghost ctx: Context, ghost s: Shape) returns (node: Node)
      requires At(ctx, s) && Ready(View(), comp) && s.Branch? && s.right.Branch? && start == s.node && start in repr
      ensures IsNext(comp, repr, nil, start, node)
    {
      ghost var inner, t;
      Pointers(ctx, s);
      Descend(View(), Right, ctx, s);
      Pointers(Into(Right, ctx, s), s.right);
      node := start.right;
      if node.right != nil && node.right.data == node.data {
        RightChildIsGreater(View(), comp, Into(Right, ctx, s), s.right);
        assert false;
      }
      node, inner, t := Leftmost(node, Into(Right, ctx, s), s.right);
      LeftmostIsNext(View(), comp, inner, ctx, s, t);
    }

    /** No right child: up to the first ancestor that is reached from its left. */
    method ClimbFromRight(start: Node, ghost ctx0: Context, ghost s0: Shape) returns (parent: Node)
      requires At(ctx0, s0) && Ready(View(), comp) && s0.Branch? && s0.right.Nil? && start == s0.node && start in repr
      ensures IsNext(comp, repr, nil, start, parent)
    {
      ghost var v, left, ctx, s := View(), UpTo(repr, start), ctx0, s0;
      var node: Node := start;
      SubtreeBorders(v, ctx, s);
      Climb(v, left, ctx, s, node);
      parent := node.parent;
      while parent != nil && node == parent.right
        invariant Climbing(v, left, ctx, s, node) && parent == Parent(nil, ctx)
        invariant parent == nil <==> ctx.Top?
        decreases Depth(ctx)
      {
        Climb(v, left, ctx, s, node);
        node, ctx, s := parent, ctx.up, Join(Right, s, ctx.node, ctx.color, ctx.sibling);
        Climb(v, left, ctx, s, node);
        parent := parent.parent;
      }
      Climb(v, left, ctx, s, node);
      FirstAfterUpToIsNext(v, comp, start, parent);
    }

    /** The step of `--`. */
    method GetPredecessor(start: Node, itNil: Node) returns (r: Node)
      requires Valid() && (start in repr || start == nil)
      requires itNil == nil || itNil == start
      ensures start == itNil ==> r == itNil
      ensures start != itNil ==> IsPrevious(comp, repr, nil, start, r)
      ensures start != itNil ==> (r == nil <==> forall m :: m in repr ==> !comp(m.data, start.data))
    {
      if start == itNil {
        return itNil;
      }
      ghost var v := View();
      IsReady(v, comp, Top, shape);
      ghost var ctx, s := Locate(shape, start);
      WholeTop(v, ctx, s);
      Descend(v, Left, ctx, s);
      RootIsNil(v, Into(Left, ctx, s), s.left);
      if start.left != nil {
        r := RightmostOnLeft(start, ctx, s);
      } else {
        r := ClimbFromLeft(start, ctx, s);
      }
    }

    /** The left child exists: one step left, then right to the end. */
    method RightmostOnLeft(start: Node, ghost ctx: Context, ghost s: Shape) returns (node: Node)
      requires At(ctx, s) && Ready(View(), comp) && s.Branch? && s.left.Branch? && start == s.node && start in repr
      ensures IsPrevious(comp, repr, nil, start, node)
    {
      ghost var inner, t;
      Pointers(ctx, s);
      Descend(View(), Left, ctx, s);
      node, inner, t := Rightmost(start.left, Into(Left, ctx, s), s.left);
      RightmostIsPrevious(View(), comp, inner, ctx, s, t);
    }

    /** No left child: up to the first ancestor that is reached from its right. */
    method ClimbFromLeft(start: Node, ghost ctx0: Context, ghost s0: Shape) returns (parent: Node)
      requires At(ctx0, s0) && Ready(View(), comp) && s0.Branch? && s0.left.Nil? && start == s0.node && start in repr
      ensures IsPrevious(comp, repr, nil, start, parent)
    {
      ghost var v, left, ctx, s := View(), Before(repr, start), ctx0, s0;
      var node: Node := start;
      SubtreeBorders(v, ctx, s);
      ClimbBack(v, left, ctx, s, node);
      parent := node.parent;
      while parent != nil && node == parent.left
        invariant ClimbingBack(v, left, ctx, s, node) && parent == Parent(nil, ctx)
        invariant parent == nil <==> ctx.Top?
        decreases Depth(ctx)
      {
        ClimbBack(v, left, ctx, s, node);
        node, ctx, s := parent, ctx.up, Join(Left, s, ctx.node, ctx.color, ctx.sibling);
        ClimbBack(v, left, ctx, s, node);
        parent := parent.parent;
      }
      ClimbBack(v, left, ctx, s, node);
      LastOfBeforeIsPrevious(v, comp, start, parent);
    }

    /** Stepping back undoes stepping forward between real nodes. */
    lemma StepBackUndoesStep(m: Node, n: Node)
      requires Valid() && m in repr && n in repr
      ensures IsNext(comp, repr, nil, m, n) <==> IsPrevious(comp, repr, nil, n, m)
    {
      IsReady(View(), comp, Top, shape);
      PreviousUndoesNext(View(), comp, m, n);
    }

    // ----- insertion

    /** Links a new node under the last node of the search path, with its place in rank order between its neighbours. */
    method AttachLeaf(val: Key, parent: Node, ghost ctx: Context) returns (newNode: Node)
      requires At(ctx, Nil) && ctx.Frame? && parent == ctx.node
      requires ctx.side.Left? <==> comp(val, parent.data)
      modifies this`size, this`repr, repr
      ensures size == old(size) + 1
      ensures fresh(newNode) && newNode.data == val && Lo(ctx) < newNode.rank < Hi(ctx)
      ensures repr == old(repr) + {newNode}
      ensures At(ctx, Branch(Nil, newNode, Red, Nil))
    {
      hide Focus, All, Lo, Hi;
      ghost var v := View();
      RoomForLeaf(v, ctx);
      newNode := new Node(val, (Lo(ctx) + Hi(ctx)) / 2.0);
      newNode.left, newNode.right := nil, nil;
      newNode.parent := parent;
      size := size + 1;
      HangLeaf(newNode, parent, ctx.side);
      LeafHung(v, View(), ctx, newNode);
    }

    /** The link to the new node, which is linked to its surroundings already. */
    method HangLeaf(newNode: Node, parent: Node, ghost side: Side)
      requires newNode !in repr && parent in repr && (side.Left? <==> comp(newNode.data, parent.data))
      modifies this`repr, parent
      ensures repr == old(repr) + {newNode}
      ensures View() == old(View()).(cells := old(View()).cells
                [parent := SetChild(side, old(View()).cells[parent], newNode)]
                [newNode := Cell(newNode.color, newNode.parent, newNode.left, newNode.right)])
    {
      if comp(newNode.data, parent.data) {
        parent.left := newNode;
      } else {
        parent.right := newNode;
      }
      repr := repr + {newNode};
    }

    /** The walk of `Insert` down to an empty place, unless an equivalent key is met on the way. */
    method FindPlace(val: Key) returns (parent: Node, ghost ctx: Context)
      requires Valid() && shape.Branch?
      ensures parent == nil ==> exists m :: m in repr && Equivalent(m.data, val)
      ensures parent != nil ==> ctx.Frame? && Placing(View(), comp, shape, ctx, Nil, val, nil, parent)
    {
      ghost var v, s := View(), shape;
      ctx := Top;
      var current: Node := root;
      parent := nil;
      IsReady(v, comp, ctx, s);
      RootIsNil(v, ctx, s);
      SearchStarts(v, comp, s, val);
      while current != nil
        invariant Placing(v, comp, shape, ctx, s, val, current, parent)
        invariant ctx.Top? ==> current != nil
        invariant v == View()
        decreases s
      {
        PlacingDescends(v, comp, shape, ctx, s, val, current, parent);
        parent := current;
        var curData := current.data;
        if comp(val, curData) {
          current, ctx, s := current.left, Into(Left, ctx, s), s.left;
        } else if comp(curData, val) {
          current, ctx, s := current.right, Into(Right, ctx, s), s.right;
        } else {
          assert Equivalent(current.data, val);
          return nil, ctx;
        }
      }
      PlacingEnds(v, comp, shape, ctx, s, val, parent);
    }

    method Insert(val: Key) returns (it: Iterator)
      requires Valid()
      modifies this`root, this`size, this`repr, this`shape, this`rotations, repr
      ensures Valid() && it.nil == nil && old(rotations) <= rotations <= old(rotations) + 2
      ensures it.node == nil ==> exists m :: m in old(repr) && Equivalent(m.data, val)
      ensures it.node == nil ==> repr == old(repr) && size == old(size) && View() == old(View())
      ensures it.node != nil ==> forall m :: m in old(repr) ==> !Equivalent(m.data, val)
      ensures it.node != nil ==>
                fresh(it.node) && it.node.data == val && repr == old(repr) + {it.node} && size == old(size) + 1
    {
      hide Ordered, StrictWeakOrder, RedBlack, Focus, All;
      Pointers(Top, shape);
      if root == nil {
        it := InsertFirst(val);
      } else {
        var parent;
        ghost var ctx;
        parent, ctx := FindPlace(val);
        if parent == nil {
          it := Iterator(nil, nil);
        } else {
          SearchFails(View(), comp, ctx, Nil, val);
          it := InsertUnder(val, parent, ctx);
        }
      }
    }

    method InsertUnder(val: Key, parent: Node, ghost ctx: Context) returns (it: Iterator)
      requires Valid() && ctx.Frame? && Placing(View(), comp, shape, ctx, Nil, val, nil, parent)
      modifies this`root, this`size, this`repr, this`shape, this`rotations, repr
      ensures Valid() && it.nil == nil && old(rotations) <= rotations <= old(rotations) + 2
      ensures fresh(it.node) && it.node.data == val && repr == old(repr) + {it.node} && size == old(size) + 1
    {
      hide Focus, StrictWeakOrder, Ordered, RedBlack, CtxRules, Separates, Linked;
      ghost var v := View();
      ghost var h := FocusRules(ctx, Nil);
      var newNode := AttachLeaf(val, parent, ctx);
      OrderedWith(v, comp, ctx, newNode);
      OneMore(old(repr), newNode);
      InsertFixup(newNode, ctx, Branch(Nil, newNode, Red, Nil), h);
      it := Iterator(newNode, nil);
    }

    method InsertFirst(val: Key) returns (it: Iterator)
      requires Valid() && shape == Nil
      modifies this`root, this`size, this`repr, this`shape
      ensures Valid() && it.nil == nil && old(repr) == {}
      ensures fresh(it.node) && it.node.data == val && repr == old(repr) + {it.node} && size == old(size) + 1
    {
      root := new Node(val, 0.5);
      size := size + 1;
      root.color := Black;
      root.parent, root.left, root.right := nil, nil, nil;
      repr := repr + {root};
      shape := Branch(Nil, root, Black, Nil);
      assert Linked(View(), Nil, root, 0.0, root.rank) && Linked(View(), Nil, root, root.rank, 1.0);
      assert Linked(View(), shape, nil, 0.0, 1.0);
      assert Rules(shape, 1);
      it := Iterator(root, nil);
    }

    // ----- removal repair

    /** A node that is one black node short, and its sibling, as the pointers show them. */
    lemma ShortFamily(ctx: Context, s: Shape, h: nat)
      requires At(ctx, s) && OneShort(ctx, s, h) && ctx.Frame?
      ensures ctx.node in repr && ctx.node.color == ctx.color && ctx.sibling.Branch? && ctx.sibling.node in repr
      ensures ctx.node.left == (if ctx.side.Left? then Root(nil, s) else ctx.sibling.node)
      ensures ctx.node.right == (if ctx.side.Left? then ctx.sibling.node else Root(nil, s))
      ensures ctx.sibling.node != Root(nil, s) && ctx.sibling.node != nil
      ensures ctx.sibling.node.color == ctx.sibling.color
      ensures ctx.sibling.node.left == Root(nil, ctx.sibling.left)
      ensures ctx.sibling.node.right == Root(nil, ctx.sibling.right)
      ensures Root(nil, ctx.sibling.left).color == ColorOf(ctx.sibling.left)
      ensures Root(nil, ctx.sibling.right).color == ColorOf(ctx.sibling.right)
      ensures forall n :: n == Root(nil, ctx.sibling.left) || n == Root(nil, ctx.sibling.right) ==>
                n == nil || n in repr
    {
      SiblingExists(ctx, s, h);
      Pointers(ctx, s);
      ghost var c2 := Frame(ctx.side.Other(), ctx.node, ctx.color, s, ctx.up);
      Sideways(ctx.side, s, ctx.node, ctx.color, ctx.sibling, ctx.up);
      Pointers(c2, ctx.sibling);
      RootIsNil(View(), c2, ctx.sibling);
      Descend(View(), Left, c2, ctx.sibling);
      Descend(View(), Right, c2, ctx.sibling);
      Pointers(Into(Left, c2, ctx.sibling), ctx.sibling.left);
      Pointers(Into(Right, c2, ctx.sibling), ctx.sibling.right);
    }

    /** Painting the sibling of the focused node. */
    method PaintSibling(w: Node, c: Color, ghost ctx: Context, ghost s: Shape)
      requires At(ctx, s) && ctx.Frame? && ctx.sibling.Branch? && w == ctx.sibling.node
      modifies w`color
      ensures At(ctx.(sibling := ctx.sibling.(color := c)), s)
    {
      Sideways(ctx.side, s, ctx.node, ctx.color, ctx.sibling, ctx.up);
      SetColor(w, c, Frame(ctx.side.Other(), ctx.node, ctx.color, s, ctx.up), ctx.sibling);
      Sideways(ctx.side, s, ctx.node, ctx.color, ctx.sibling.(color := c), ctx.up);
    }

    /** Painting the parent of the focused node. */
    method PaintParent(p: Node, c: Color, ghost ctx: Context, ghost s: Shape)
      requires At(ctx, s) && ctx.Frame? && p == ctx.node
      modifies p`color
      ensures At(ctx.(color := c), s)
    {
      Up(ctx, s);
      SetColor(p, c, ctx.up, Join(ctx.side, s, ctx.node, ctx.color, ctx.sibling));
      Up(ctx.(color := c), s);
    }

    /** Painting a child of the sibling. */
    method PaintNephew(n: Node, c: Color, ghost side: Side, ghost ctx: Context, ghost s: Shape)
      requires At(ctx, s) && ctx.Frame? && ctx.sibling.Branch? && Child(side, ctx.sibling).Branch?
      requires n == Child(side, ctx.sibling).node
      modifies n`color
      ensures At(ctx.(sibling := Join(side, Child(side, ctx.sibling).(color := c),
                 ctx.sibling.node, ctx.sibling.color, Child(side.Other(), ctx.sibling))), s)
    {
      ghost var w := ctx.sibling;
      ghost var c2 := Frame(ctx.side.Other(), ctx.node, ctx.color, s, ctx.up);
      ghost var k := Child(side, w);
      Sideways(ctx.side, s, ctx.node, ctx.color, w, ctx.up);
      Up(Into(side, c2, w), k);
      SetColor(n, c, Into(side, c2, w), k);
      Up(Into(side, c2, w), k.(color := c));
      Sideways(ctx.side, s, ctx.node, ctx.color,
        Join(side, k.(color := c), w.node, w.color, Child(side.Other(), w)), ctx.up);
    }

    /** Case 1, the sibling on the right is red. */
    method TurnRedSiblingLeft(x: Node, w0: Node, ghost ctx: Context, ghost s: Shape, ghost h: nat) returns (w: Node)
      requires At(ctx, s) && OneShort(ctx, s, h) && IsBlack(s) && ctx.Frame? && ctx.side.Left?
      requires x.parent == ctx.node && w0 == Root(nil, ctx.sibling) && w0.color == Red && (s.Branch? ==> x == s.node)
      requires (s.Nil? ==> x == nil)
      modifies this`root, this`rotations, repr
      ensures OneShort(SiblingRaised(ctx), s, h) && At(SiblingRaised(ctx), s)
      ensures SiblingRaised(ctx).sibling.Branch? && SiblingRaised(ctx).sibling.color.Black?
      ensures w == SiblingRaised(ctx).sibling.node && x.parent == ctx.node && rotations == old(rotations) + 1
    {
      hide Focus, All, Rules, CtxRules;
      ShortFamily(ctx, s, h);
      RedSiblingTurned(ctx, s, h);
      w := w0;
      PaintSibling(w, Black, ctx, s);
      ghost var c1 := ctx.(sibling := ctx.sibling.(color := Black));
      PaintParent(x.parent, Red, c1, s);
      c1 := c1.(color := Red);
      Up(c1, s);
      RotateLeft(x.parent, c1.up, Join(Left, s, c1.node, Red, c1.sibling));
      Up(SiblingRaised(ctx), s);
      Up(SiblingRaised(ctx).up, Join(Left, s, ctx.node, Red, SiblingRaised(ctx).sibling));
      Pointers(SiblingRaised(ctx), s);
      w := x.parent.right;
    }

    /** Case 3, of the sibling's children only the near one is red. */
    method TurnNearNephewLeft(x: Node, w0: Node, ghost ctx: Context, ghost s: Shape, ghost h: nat) returns (w: Node)
      requires At(ctx, s) && OneShort(ctx, s, h) && ctx.Frame? && ctx.side.Left? && ctx.sibling.Branch?
      requires ctx.sibling.color.Black?
      requires x.parent == ctx.node && w0 == ctx.sibling.node && (s.Branch? ==> x == s.node) && (s.Nil? ==> x == nil)
      requires IsBlack(ctx.sibling.right) && !IsBlack(ctx.sibling.left)
      modifies this`root, this`rotations, repr
      ensures OneShort(NephewRaised(ctx), s, h) && At(NephewRaised(ctx), s)
      ensures w == NephewRaised(ctx).sibling.node && x.parent == ctx.node && rotations == old(rotations) + 1
    {
      hide Focus, All, Rules, CtxRules;
      ShortFamily(ctx, s, h);
      NearNephewTurned(ctx, s, h);
      w := w0;
      PaintNephew(w.left, Black, Left, ctx, s);
      ghost var c1 := ctx.(sibling := ctx.sibling.(left := ctx.sibling.left.(color := Black)));
      PaintSibling(w, Red, c1, s);
      c1 := c1.(sibling := c1.sibling.(color := Red));
      Sideways(Left, s, c1.node, c1.color, c1.sibling, c1.up);
      RotateRight(w, Frame(Right, c1.node, c1.color, s, c1.up), c1.sibling);
      Sideways(Left, s, c1.node, c1.color, NephewRaised(ctx).sibling, c1.up);
      Pointers(NephewRaised(ctx), s);
      w := x.parent.right;
    }

    /** Case 4, the sibling's far child is red. */
    method PayLeft(x: Node, w: Node, ghost ctx: Context, ghost s: Shape, ghost h: nat)
      requires At(ctx, s) && OneShort(ctx, s, h) && IsBlack(s) && ctx.Frame? && ctx.side.Left? && ctx.sibling.Branch?
      requires ctx.sibling.color.Black?
      requires x.parent == ctx.node && w == ctx.sibling.node && (s.Branch? ==> x == s.node) && (s.Nil? ==> x == nil)
      requires !IsBlack(ctx.sibling.right)
      modifies this`root, this`rotations, repr
      ensures At(ctx.up, Paid(ctx, s)) && rotations == old(rotations) + 1
    {
      hide Focus, All, Rules, CtxRules;
      ShortFamily(ctx, s, h);
      PaintSibling(w, x.parent.color, ctx, s);
      ghost var c1 := ctx.(sibling := ctx.sibling.(color := ctx.color));
      PaintNephew(w.right, Black, Right, c1, s);
      c1 := c1.(sibling := c1.sibling.(right := Blackened(c1.sibling.right)));
      PaintParent(x.parent, Black, c1, s);
      c1 := c1.(color := Black);
      Up(c1, s);
      RotateLeft(x.parent, c1.up, Join(Left, s, c1.node, Black, c1.sibling));
    }

    /** Case 2, on either side: the sibling becomes red, and its parent is the next to look at. */
    method PassDebt(x: Node, w: Node, ghost ctx: Context, ghost s: Shape, ghost h: nat) returns (p: Node, ghost h': nat)
      requires At(ctx, s) && OneShort(ctx, s, h) && IsBlack(s) && ctx.Frame? && ctx.sibling.Branch?
      requires ctx.sibling.color.Black?
      requires x.parent == ctx.node && w == ctx.sibling.node && (s.Branch? ==> x == s.node) && (s.Nil? ==> x == nil)
      requires IsBlack(ctx.sibling.left) && IsBlack(ctx.sibling.right)
      modifies w`color
      ensures var s' := Join(ctx.side, s, ctx.node, ctx.color, ctx.sibling.(color := Red));
              At(ctx.up, s') && OneShort(ctx.up, s', h') && p == ctx.node
              && (ctx.up.Frame? ==> p.parent == ctx.up.node)
    {
      PaintSibling(w, Red, ctx, s);
      h' := BlackNephews(ctx, s, h);
      Up(ctx.(sibling := ctx.sibling.(color := Red)), s);
      Pointers(ctx.up, Join(ctx.side, s, ctx.node, ctx.color, ctx.sibling.(color := Red)));
      p := x.parent;
    }

    /** Cases 3 and 4 with `x` a left child: they pay the debt, and the repair goes on at the root, where it ends. */
    method SettleDebtLeft(x0: Node, w0: Node, ghost ctx0: Context, ghost s0: Shape, ghost h0: nat)
      returns (x: Node, ghost s: Shape, ghost h: nat)
      requires At(ctx0, s0) && OneShort(ctx0, s0, h0) && IsBlack(s0) && ctx0.Frame? && ctx0.side.Left?
      requires ctx0.sibling.Branch? && ctx0.sibling.color.Black?
      requires !(IsBlack(ctx0.sibling.left) && IsBlack(ctx0.sibling.right))
      requires x0.parent == ctx0.node && w0 == ctx0.sibling.node && (s0.Branch? ==> x0 == s0.node)
      requires (s0.Nil? ==> x0 == nil)
      modifies this`root, this`rotations, repr
      ensures At(Top, s) && OneShort(Top, s, h) && x == Root(nil, s) && old(rotations) < rotations <= old(rotations) + 2
    {
      hide Focus, All, Rules, CtxRules;
      var w := w0;
      ghost var ctx := ctx0;
      x, s, h := x0, s0, h0;
      ShortFamily(ctx, s, h);
      if w.right.color == Black {
        w := TurnNearNephewLeft(x, w, ctx, s, h);
        ctx := NephewRaised(ctx);
      }
      PayLeft(x, w, ctx, s, h);
      h := FarNephewPays(ctx, s, h);
      AtTop(ctx.up, Paid(ctx, s));
      s := Plug(ctx.up, Paid(ctx, s));
      Pointers(Top, s);
      x := root;
    }

    /** One round of the repair when `x` is a left child. */
    method RemoveFixupLeft(x0: Node, ghost ctx0: Context, ghost s0: Shape, ghost h0: nat)
      returns (x: Node, ghost ctx: Context, ghost s: Shape, ghost h: nat)
      requires At(ctx0, s0) && OneShort(ctx0, s0, h0) && IsBlack(s0) && ctx0.Frame? && ctx0.side.Left?
      requires x0 == Root(nil, s0) && x0.parent == ctx0.node
      modifies this`root, this`rotations, repr
      ensures At(ctx, s) && OneShort(ctx, s, h) && x == Root(nil, s) && (ctx.Frame? ==> x.parent == ctx.node)
      ensures ctx.Top? || !IsBlack(s) || (Depth(ctx) < Depth(ctx0) && rotations == old(rotations))
      ensures old(rotations) <= rotations <= old(rotations) + 3
    {
      hide Focus, All, Rules, CtxRules;
      x, ctx, s, h := x0, ctx0, s0, h0;
      ShortFamily(ctx, s, h);
      var w: Node := x.parent.right;
      if w.color == Red {
        w := TurnRedSiblingLeft(x, w, ctx, s, h);
        ctx := SiblingRaised(ctx);
        ShortFamily(ctx, s, h);
      }
      if w.left.color == Black && w.right.color == Black {
        x, h := PassDebt(x, w, ctx, s, h);
        ctx, s := ctx.up, Join(Left, s, ctx.node, ctx.color, ctx.sibling.(color := Red));
      } else {
        x, s, h := SettleDebtLeft(x, w, ctx, s, h);
        ctx := Top;
      }
    }

    /** Case 1, the sibling on the left is red. */
    method TurnRedSiblingRight(x: Node, w0: Node, ghost ctx: Context, ghost s: Shape, ghost h: nat) returns (w: Node)
      requires At(ctx, s) && OneShort(ctx, s, h) && IsBlack(s) && ctx.Frame? && ctx.side.Right?
      requires x.parent == ctx.node && w0 == Root(nil, ctx.sibling) && w0.color == Red && (s.Branch? ==> x == s.node)
      requires (s.Nil? ==> x == nil)
      modifies this`root, this`rotations, repr
      ensures OneShort(SiblingRaised(ctx), s, h) && At(SiblingRaised(ctx), s)
      ensures SiblingRaised(ctx).sibling.Branch? && SiblingRaised(ctx).sibling.color.Black?
      ensures w == SiblingRaised(ctx).sibling.node && x.parent == ctx.node && rotations == old(rotations) + 1
    {
      hide Focus, All, Rules, CtxRules;
      ShortFamily(ctx, s, h);
      RedSiblingTurned(ctx, s, h);
      w := w0;
      PaintSibling(w, Black, ctx, s);
      ghost var c1 := ctx.(sibling := ctx.sibling.(color := Black));
      PaintParent(x.parent, Red, c1, s);
      c1 := c1.(color := Red);
      Up(c1, s);
      RotateRight(x.parent, c1.up, Join(Right, s, c1.node, Red, c1.sibling));
      Up(SiblingRaised(ctx), s);
      Up(SiblingRaised(ctx).up, Join(Right, s, ctx.node, Red, SiblingRaised(ctx).sibling));
      Pointers(SiblingRaised(ctx), s);
      w := x.parent.left;
    }

    /** Case 3, of the sibling's children only the near one is red. */
    method TurnNearNephewRight(x: Node, w0: Node, ghost ctx: Context, ghost s: Shape, ghost h: nat) returns (w: Node)
      requires At(ctx, s) && OneShort(ctx, s, h) && ctx.Frame? && ctx.side.Right? && ctx.sibling.Branch?
      requires ctx.sibling.color.Black?
      requires x.parent == ctx.node && w0 == ctx.sibling.node && (s.Branch? ==> x == s.node) && (s.Nil? ==> x == nil)
      requires IsBlack(ctx.sibling.left) && !IsBlack(ctx.sibling.right)
      modifies this`root, this`rotations, repr
      ensures OneShort(NephewRaised(ctx), s, h) && At(NephewRaised(ctx), s)
      ensures w == NephewRaised(ctx).sibling.node && x.parent == ctx.node && rotations == old(rotations) + 1
    {
      hide Focus, All, Rules, CtxRules;
      ShortFamily(ctx, s, h);
      NearNephewTurned(ctx, s, h);
      w := w0;
      PaintNephew(w.right, Black, Right, ctx, s);
      ghost var c1 := ctx.(sibling := ctx.sibling.(right := ctx.sibling.right.(color := Black)));
      PaintSibling(w, Red, c1, s);
      c1 := c1.(sibling := c1.sibling.(color := Red));
      Sideways(Right, s, c1.node, c1.color, c1.sibling, c1.up);
      RotateLeft(w, Frame(Left, c1.node, c1.color, s, c1.up), c1.sibling);
      Sideways(Right, s, c1.node, c1.color, NephewRaised(ctx).sibling, c1.up);
      Pointers(NephewRaised(ctx), s);
      w := x.parent.left;
    }

    /** Case 4, the sibling's far child is red. */
    method PayRight(x: Node, w: Node, ghost ctx: Context, ghost s: Shape, ghost h: nat)
      requires At(ctx, s) && OneShort(ctx, s, h) && IsBlack(s) && ctx.Frame? && ctx.side.Right? && ctx.sibling.Branch?
      requires ctx.sibling.color.Black?
      requires x.parent == ctx.node && w == ctx.sibling.node && (s.Branch? ==> x == s.node) && (s.Nil? ==> x == nil)
      requires !IsBlack(ctx.sibling.left)
      modifies this`root, this`rotations, repr
      ensures At(ctx.up, Paid(ctx, s)) && rotations == old(rotations) + 1
    {
      hide Focus, All, Rules, CtxRules;
      ShortFamily(ctx, s, h);
      PaintSibling(w, x.parent.color, ctx, s);
      ghost var c1 := ctx.(sibling := ctx.sibling.(color := ctx.color));
      PaintNephew(w.left, Black, Left, c1, s);
      c1 := c1.(sibling := c1.sibling.(left := Blackened(c1.sibling.left)));
      PaintParent(x.parent, Black, c1, s);
      c1 := c1.(color := Black);
      Up(c1, s);
      RotateRight(x.parent, c1.up, Join(Right, s, c1.node, Black, c1.sibling));
    }

    /** Cases 3 and 4 with `x` a right child: they pay the debt, and the repair goes on at the root, where it ends. */
    method SettleDebtRight(x0: Node, w0: Node, ghost ctx0: Context, ghost s0: Shape, ghost h0: nat)
      returns (x: Node, ghost s: Shape, ghost h: nat)
      requires At(ctx0, s0) && OneShort(ctx0, s0, h0) && IsBlack(s0) && ctx0.Frame? && ctx0.side.Right?
      requires ctx0.sibling.Branch? && ctx0.sibling.color.Black?
      requires !(IsBlack(ctx0.sibling.left) && IsBlack(ctx0.sibling.right))
      requires x0.parent == ctx0.node && w0 == ctx0.sibling.node && (s0.Branch? ==> x0 == s0.node)
      requires (s0.Nil? ==> x0 == nil)
      modifies this`root, this`rotations, repr
      ensures At(Top, s) && OneShort(Top, s, h) && x == Root(nil, s) && old(rotations) < rotations <= old(rotations) + 2
    {
      hide Focus, All, Rules, CtxRules;
      var w := w0;
      ghost var ctx := ctx0;
      x, s, h := x0, s0, h0;
      ShortFamily(ctx, s, h);
      if w.left.color == Black {
        w := TurnNearNephewRight(x, w, ctx, s, h);
        ctx := NephewRaised(ctx);
      }
      PayRight(x, w, ctx, s, h);
      h := FarNephewPays(ctx, s, h);
      AtTop(ctx.up, Paid(ctx, s));
      s := Plug(ctx.up, Paid(ctx, s));
      Pointers(Top, s);
      x := root;
    }

    /** One round of the repair when `x` is a right child. */
    method RemoveFixupRight(x0: Node, ghost ctx0: Context, ghost s0: Shape, ghost h0: nat)
      returns (x: Node, ghost ctx: Context, ghost s: Shape, ghost h: nat)
      requires At(ctx0, s0) && OneShort(ctx0, s0, h0) && IsBlack(s0) && ctx0.Frame? && ctx0.side.Right?
      requires x0 == Root(nil, s0) && x0.parent == ctx0.node
      modifies this`root, this`rotations, repr
      ensures At(ctx, s) && OneShort(ctx, s, h) && x == Root(nil, s) && (ctx.Frame? ==> x.parent == ctx.node)
      ensures ctx.Top? || !IsBlack(s) || (Depth(ctx) < Depth(ctx0) && rotations == old(rotations))
      ensures old(rotations) <= rotations <= old(rotations) + 3
    {
      hide Focus, All, Rules, CtxRules;
      x, ctx, s, h := x0, ctx0, s0, h0;
      ShortFamily(ctx, s, h);
      var w: Node := x.parent.left;
      if w.color == Red {
        w := TurnRedSiblingRight(x, w, ctx, s, h);
        ctx := SiblingRaised(ctx);
        ShortFamily(ctx, s, h);
      }
      if w.right.color == Black && w.left.color == Black {
        x, h := PassDebt(x, w, ctx, s, h);
        ctx, s := ctx.up, Join(Right, s, ctx.node, ctx.color, ctx.sibling.(color := Red));
      } else {
        x, s, h := SettleDebtRight(x, w, ctx, s, h);
        ctx := Top;
      }
    }

    method RemoveFixup(x0: Node, ghost ctx0: Context, ghost s0: Shape, ghost h0: nat)
      requires Kept() && At(ctx0, s0) && OneShort(ctx0, s0, h0)
      requires x0 == Root(nil, s0) && (ctx0.Frame? ==> x0.parent == ctx0.node)
      modifies this`root, this`shape, this`rotations, repr, nil`color
      ensures Valid() && old(rotations) <= rotations <= old(rotations) + 3
    {
      hide Focus, All, Rules, CtxRules, OneShort, Ordered, StrictWeakOrder, RedBlack;
      var x := x0;
      ghost var ctx, s, h := ctx0, s0, h0;
      AtRoot(ctx, s);
      while x != root && x.color == Black
        invariant At(ctx, s) && OneShort(ctx, s, h) && x == Root(nil, s) && (ctx.Frame? ==> x.parent == ctx.node)
        invariant (x == root <==> ctx.Top?) && x.color == ColorOf(s) && (s.Branch? ==> x in repr)
        invariant old(rotations) <= rotations <= old(rotations) + 3
        invariant (ctx.Frame? && IsBlack(s) ==> rotations == old(rotations))
        decreases if IsBlack(s) then Depth(ctx) + 1 else 0
      {
        ShortFamily(ctx, s, h);
        if x == x.parent.left {
          x, ctx, s, h := RemoveFixupLeft(x, ctx, s, h);
        } else {
          x, ctx, s, h := RemoveFixupRight(x, ctx, s, h);
        }
        AtRoot(ctx, s);
      }
      RemovalDone(ctx, s, h);
      Blacken(x, ctx, s);
    }

    lemma AtRoot(ctx: Context, s: Shape)
      requires At(ctx, s)
      ensures Root(nil, s) == root <==> ctx.Top?
      ensures Root(nil, s).color == ColorOf(s) && (s.Branch? ==> s.node in repr)
    {
      Pointers(ctx, s);
      if ctx.Frame? {
        RootIsOutside(View(), ctx, Root(nil, s));
        RootIsNil(View(), ctx, s);
      }
    }

    /** The last step of the repair: the focused node, or the sentinel in its place, is painted black. */
    method Blacken(x: Node, ghost ctx: Context, ghost s: Shape)
      requires Kept() && At(ctx, s) && x == Root(nil, s) && (s.Branch? ==> x in repr)
      requires RedBlack(Plug(ctx, Blackened(s)))
      modifies this`shape, x`color
      ensures Valid()
    {
      hide Focus, Ordered, StrictWeakOrder, RedBlack;
      ghost var v := View();
      x.color := Black;
      if s.Branch? {
        assert View() == v.(cells := v.cells[x := v.cells[x].(color := Black)]);
        Painted(v, View(), ctx, s, Black);
      } else {
        assert View() == v;
      }
      Settle(ctx, Blackened(s));
    }

    // ----- removal

    method Transplant(u: Node, w: Node, ghost ctx: Context)
      requires nil !in repr && u in repr && u != w && u.parent == Parent(nil, ctx) && (w != nil ==> w in repr)
      requires ctx.Frame? ==> ctx.node in repr && ctx.node != w && ctx.node != u
      requires ctx.Frame? ==> if ctx.side.Left? then ctx.node.left == u else ctx.node.right == u && ctx.node.left != u
      modifies this`root, repr, nil`parent
      ensures TransplantedLinks(old(View()), View(), ctx, u, w)
      ensures w.parent == Parent(nil, ctx) && View().cells[u] == old(View()).cells[u]
      ensures w != nil ==> nil.parent == old(nil.parent)
    {
      if u.parent == nil {
        root := w;
      } else if u == u.parent.left {
        u.parent.left := w;
      } else {
        u.parent.right := w;
      }
      w.parent := u.parent;
    }

    /** Cases 1 and 2: a node without one of its children is replaced by the other. */
    method SpliceOut(node: Node, x: Node, ghost side: Side, ghost ctx: Context, ghost s: Shape)
      requires At(ctx, s) && s.Branch? && node == s.node && Child(side.Other(), s).Nil?
      requires x == Root(nil, Child(side, s))
      modifies this`root, this`repr, repr, nil`parent
      ensures At(ctx, Child(side, s)) && repr == old(repr) - {node} && x.parent == Parent(nil, ctx)
    {
      hide Focus, Linked, CtxLinked, TransplantedLinks, Nodes, CtxNodes;
      ghost var v, t := View(), Child(side, s);
      SplicePointers(ctx, s, side);
      Transplant(node, x, ctx);
      repr := repr - {node};
      Spliced(v, View(), ctx, side, s);
    }

    lemma SplicePointers(ctx: Context, s: Shape, side: Side)
      requires At(ctx, s) && s.Branch? && Child(side.Other(), s).Nil?
      ensures var x := Root(nil, Child(side, s));
              && s.node in repr && s.node != x && s.node.parent == Parent(nil, ctx) && (x != nil ==> x in repr)
              && (ctx.Frame? ==> ctx.node in repr && ctx.node != x && ctx.node != s.node && ctx.node != nil)
              && (ctx.Frame? ==>
                 if ctx.side.Left? then ctx.node.left == s.node
                 else ctx.node.right == s.node && ctx.node.left != s.node)
      ensures All(ctx, Child(side, s)) == repr - {s.node}
    {
      Pointers(ctx, s);
      Descend(View(), side, ctx, s);
      NodesOutside(View(), ctx, s.node);
      NodesInside(View(), s.left, s.node, Lo(ctx), s.node.rank);
      NodesInside(View(), s.right, s.node, s.node.rank, Hi(ctx));
    }

    /** Case 3, when the successor is the right child: it keeps its own right subtree. */
    method LiftDirect(x: Node, y: Node, ghost t: Shape, ghost ctx: Context, ghost s: Shape)
      requires s.Branch? && At(ctx, s) && s.right == t && t.Branch? && t.left.Nil? && y == t.node
      requires x == Root(nil, t.right)
      requires t.right.Branch? ==> x in repr && x.parent == y
      modifies x`parent
      ensures Lifted(View(), ctx, s, t.right, y) && x.parent == y
    {
      ghost var v := View();
      x.parent := y;
      assert View() == v;
      LiftedDirect(v, View(), ctx, s);
    }

    /** Case 3, when the successor lies deeper: it leaves its place and takes over the right subtree. */
    method LiftDeep(node: Node, y: Node, ghost inner: Context, ghost t: Shape, ghost ctx: Context, ghost s: Shape)
      requires s.Branch? && node == s.node && At(ctx, s) && At(Append(inner, Into(Right, ctx, s)), t)
      requires inner.Frame? && AllLeft(inner) && t.Branch? && t.left.Nil? && y == t.node
      requires s.node.rank < y.rank < Hi(ctx)
      modifies this`root, repr, nil`parent
      ensures Lifted(View(), ctx, s, Plug(inner, t.right), y)
      ensures t.right.Nil? ==> nil.parent == inner.node
    {
      ghost var v, c, r := View(), Append(inner, Into(Right, ctx, s)), Plug(inner, t.right);
      SplicePointers(c, t, Right);
      Transplant(y, y.right, c);
      Transplanted(v, View(), c, y, t.right, y, y.rank, Hi(c));
      Extracted(View(), inner, ctx, s, t.right, y.rank);
      PlugFrame(inner, t.right);
      LiftLinks(node, y, ctx, s, r);
    }

    method LiftLinks(node: Node, y: Node, ghost ctx: Context, ghost s: Shape, ghost r: Shape)
      requires Headed(View(), ctx, s, r, y.rank) && s.node.rank < y.rank < Hi(ctx) && nil !in repr
      requires r.Branch? && y in repr && node == s.node
      modifies repr
      ensures Lifted(View(), ctx, s, r, y)
    {
      ghost var v := View();
      assert r.node in repr && y.rank < r.node.rank;
      y.right := node.right;
      y.right.parent := y;
      LiftedDeep(v, View(), ctx, s, r, y);
    }

    /** The successor takes over the place, the left subtree and the color of `node`, which leaves the tree. */
    method TakeOver(node: Node, y: Node, ghost ctx: Context, ghost s: Shape, ghost r: Shape)
      requires Lifted(View(), ctx, s, r, y) && nil !in repr && node == s.node && s.left.Branch?
      modifies this`root, this`repr, repr, nil`parent
      ensures repr == old(repr) - {node} && nil.parent == old(nil.parent)
      ensures Focus(View(), ctx, Branch(s.left, y, s.color, r))
    {
      hide Focus, Linked, CtxLinked, ReplacedLinks, Nodes, CtxNodes;
      ghost var v := View();
      LiftedPointers(v, ctx, s, r, y);
      TakeOverLinks(node, y, ctx, s.left, r);
      repr := repr - {node};
      Replaced(v, View(), ctx, node, s.left, r, y, y, s.color);
    }

    method TakeOverLinks(node: Node, y: Node, ghost ctx: Context, ghost l: Shape, ghost r: Shape)
      requires nil !in repr && node in repr && y in repr && node != y && l.Branch? && l.node in repr && l.node != y
      requires l.node != node && l.node != nil
      requires node.parent == Parent(nil, ctx) && node.left == l.node && y.right == Root(nil, r)
      requires r.Branch? ==> r.node in repr && r.node.parent == y && r.node != node && r.node != y && r.node != l.node
      requires ctx.Frame? ==> ctx.node in repr && ctx.node != node && ctx.node != y && ctx.node != l.node
      requires ctx.Frame? ==> (r.Branch? ==> ctx.node != r.node)
      requires ctx.Frame? ==>
                 if ctx.side.Left? then ctx.node.left == node else ctx.node.right == node && ctx.node.left != node
      modifies this`root, repr, nil`parent
      ensures nil.parent == old(nil.parent)
      ensures ReplacedLinks(old(View()), View(), ctx, node, l, r, y, old(node.color))
    {
      ghost var v := View();
      Transplant(node, y, ctx);
      ghost var v' := View();
      AdoptLeft(node, y, l.node);
      Adopted(v, v', View(), ctx, node, l, r, y);
    }

    /** The left child and the color of `node` go to `y`. */
    method AdoptLeft(node: Node, y: Node, ghost child: Node)
      requires nil !in repr && node in repr && y in repr && child in repr && node.left == child && child != y
      requires y != node
      modifies repr
      ensures View() == old(View()).(cells := old(View().cells
                 [child := View().cells[child].(parent := y)]
                 [y := View().cells[y].(left := child, color := node.color)]))
    {
      y.left := node.left;
      y.left.parent := y;
      y.color := node.color;
    }

    /** Case 3, up to the point where the successor has left its place and heads the rest of the right subtree. */
    method Lift(node: Node, y: Node, ghost inner: Context, ghost t: Shape, ghost ctx: Context, ghost s: Shape)
      returns (x: Node)
      requires s.Branch? && node == s.node && At(ctx, s) && At(Append(inner, Into(Right, ctx, s)), t)
      requires AllLeft(inner) && Plug(inner, t) == s.right && t.Branch? && t.left.Nil? && y == t.node
      modifies this`root, repr, nil`parent
      ensures Lifted(View(), ctx, s, Plug(inner, t.right), y) && x == Root(nil, t.right)
      ensures t.right.Nil? ==> nil.parent == (if inner.Top? then y else inner.node)
    {
      SuccessorPointers(inner, t, ctx, s);
      x := y.right;
      if y.parent == node {
        LiftDirect(x, y, t, ctx, s);
      } else {
        LiftDeep(node, y, inner, t, ctx, s);
      }
    }

    /** Case 3: a node with two children is replaced by its successor, which leaves its right child `x` behind. */
    method ReplaceBySuccessor(node: Node, y: Node, ghost inner: Context, ghost t: Shape, ghost ctx: Context,
        ghost s: Shape)
      returns (x: Node)
      requires s.Branch? && node == s.node && s.left.Branch? && At(ctx, s) && At(Append(inner, Into(Right, ctx, s)), t)
      requires AllLeft(inner) && Plug(inner, t) == s.right && t.Branch? && t.left.Nil? && y == t.node
      modifies this`root, this`repr, repr, nil`parent
      ensures repr == old(repr) - {node} && x == Root(nil, t.right)
      ensures At(Append(inner, Frame(Right, y, s.color, s.left, ctx)), t.right)
      ensures t.right.Nil? ==> nil.parent == (if inner.Top? then y else inner.node)
    {
      hide Focus, All, Lifted, AllLeft;
      assert All(Append(inner, Frame(Right, y, s.color, s.left, ctx)), t.right) == repr - {node} by {
        SuccessorNodes(View(), inner, t, ctx, s);
      }
      x := Lift(node, y, inner, t, ctx, s);
      TakeOver(node, y, ctx, s, Plug(inner, t.right));
      FocusUp(View(), Right, y, s.color, s.left, ctx, Plug(inner, t.right));
      Refocus(View(), inner, Frame(Right, y, s.color, s.left, ctx), t.right);
    }

    lemma SuccessorPointers(inner: Context, t: Shape, ctx: Context, s: Shape)
      requires s.Branch? && At(ctx, s) && At(Append(inner, Into(Right, ctx, s)), t)
      requires AllLeft(inner) && Plug(inner, t) == s.right && t.Branch? && t.left.Nil?
      ensures s.node in repr && t.node in repr && t.node.right == Root(nil, t.right) && t.node.parent != null
      ensures t.right.Branch? ==> t.right.node in repr && t.right.node.parent == t.node
      ensures (t.node.parent == s.node <==> inner.Top?) && s.node.rank < t.node.rank < Hi(ctx)
    {
      var c := Append(inner, Into(Right, ctx, s));
      Pointers(ctx, s);
      Pointers(c, t);
      Descend(View(), Right, c, t);
      Pointers(Into(Right, c, t), t.right);
      PlugNodes(inner, t);
      NodesInside(View(), s.right, s.node, s.node.rank, Hi(ctx));
    }

    /** Takes `node` out of the tree, without the repair. */
    method Unlink(node: Node) returns (x: Node, originalColor: Color, ghost ctx: Context, ghost s: Shape, ghost h: nat)
      requires At(Top, shape) && RedBlack(shape) && node in repr
      modifies this`root, this`repr, repr, nil`parent
      ensures repr == old(repr) - {node} && At(ctx, s)
      ensures x == Root(nil, s) && (ctx.Frame? ==> x.parent == ctx.node)
      ensures if originalColor.Black? then OneShort(ctx, s, h) else RedBlack(Plug(ctx, s))
    {
      ctx, s := Locate(shape, node);
      WholeTop(View(), ctx, s);
      h := FocusRules(ctx, s);
      LeftChild(View(), ctx, s);
      RightChild(View(), ctx, s);
      if node.left == nil {
        x, originalColor := node.right, node.color;
        SpliceOut(node, x, Right, ctx, s);
        h := AfterUnlinking(ctx, Right, s, h);
        s := s.right;
      } else if node.right == nil {
        x, originalColor := node.left, node.color;
        SpliceOut(node, x, Left, ctx, s);
        h := AfterUnlinking(ctx, Left, s, h);
        s := s.left;
      } else {
        x, originalColor, ctx, s, h := UnlinkInner(node, ctx, s, h);
      }
    }

    /** The third case of the above: the node has two children. */
    method UnlinkInner(node: Node, ghost ctx0: Context, ghost s0: Shape, ghost h0: nat)
      returns (x: Node, originalColor: Color, ghost ctx: Context, ghost s: Shape, ghost h: nat)
      requires At(ctx0, s0) && s0.Branch? && node == s0.node && s0.left.Branch? && s0.right.Branch?
      requires Rules(s0, h0) && CtxRules(ctx0, s0.color, h0)
      modifies this`root, this`repr, repr, nil`parent
      ensures repr == old(repr) - {node} && At(ctx, s)
      ensures x == Root(nil, s) && (ctx.Frame? ==> x.parent == ctx.node)
      ensures if originalColor.Black? then OneShort(ctx, s, h) else RedBlack(Plug(ctx, s))
    {
      ghost var inner, t;
      var y;
      Pointers(ctx0, s0);
      Descend(View(), Right, ctx0, s0);
      y, inner, t := GetMinimum(node.right, Into(Right, ctx0, s0), s0.right);
      Pointers(Append(inner, Into(Right, ctx0, s0)), t);
      originalColor := y.color;
      h := SuccessorRules(inner, t, ctx0, s0, h0);
      x := ReplaceBySuccessor(node, y, inner, t, ctx0, s0);
      ctx, s := Append(inner, Frame(Right, y, s0.color, s0.left, ctx0)), t.right;
      Pointers(ctx, s);
    }

    method RemoveOne(node: Node)
      requires Valid() && (node in repr || node == nil)
      modifies this, repr, nil`parent, nil`color
      ensures Valid() && old(rotations) <= rotations <= old(rotations) + 3
      ensures node == nil ==> repr == old(repr) && size == old(size) && shape == old(shape) && View() == old(View())
      ensures node != nil ==> repr == old(repr) - {node} && size == old(size) - 1
    {
      hide RedBlack, OneShort, Focus, All, StrictWeakOrder;
      if node == nil {
        return;
      }
      var x, originalColor;
      ghost var ctx, s, h;
      OneLess(repr, node);
      size := size - 1;
      x, originalColor, ctx, s, h := Unlink(node);
      if originalColor == Black {
        RemoveFixup(x, ctx, s, h);
      } else {
        Settle(ctx, s);
      }
    }

    /** The shape of the tree, once no repair is pending. */
    ghost method Settle(ctx: Context, s: Shape)
      requires Kept() && At(ctx, s) && RedBlack(Plug(ctx, s))
      modifies this`shape
      ensures Valid() && shape == Plug(ctx, s)
    {
      AtTop(ctx, s);
      shape := Plug(ctx, s);
    }

    // ----- the public interface on top

    /** Every node of the old tree is freed once, its children before it. */
    method Clear() returns (ghost freed: seq<Node>)
      requires Valid()
      modifies this`root, this`size, this`repr, this`shape
      ensures Valid() && repr == {} && size == 0
      ensures multiset(freed) == multiset(old(repr)) && ChildrenFirst(old(View()), freed)
      ensures forall i, j :: 0 <= i < |freed| && 0 <= j < |freed| && freed[i] in [freed[j].left, freed[j].right] ==>
                i < j
    {
      hide ChildrenFirst, Linked, Kept, RedBlack, Nodes;
      Parts();
      freed := ClearRecursive(root, shape, nil, 0.0, 1.0);
      forall i, j | 0 <= i < |freed| && 0 <= j < |freed| && freed[i] in [freed[j].left, freed[j].right]
        ensures i < j
      {
        assert freed[j] in multiset(freed);
        FreedBefore(View(), repr, freed, i, j);
      }
      Forget();
    }

    /** The fields of an empty tree. */
    method Forget()
      requires Valid()
      modifies this`root, this`size, this`repr, this`shape
      ensures Valid() && repr == {} && size == 0
    {
      root, size := nil, 0;
      repr, shape := {}, Nil;
      assert Rules(shape, 0);
    }

    method ClearRecursive(node: Node, ghost s: Shape, ghost p: Node, ghost lo: real, ghost hi: real)
      returns (ghost freed: seq<Node>)
      requires nil !in repr && Linked(View(), s, p, lo, hi) && node == Root(nil, s)
      ensures multiset(freed) == multiset(Nodes(s)) && ChildrenFirst(View(), freed)
      ensures node != nil ==> node in freed
      decreases s
    {
      hide Linked, Nodes, ChildrenFirst;
      SubtreeParts(View(), s, p, lo, hi);
      if node == nil {
        NodesOnce(View(), s, p, lo, hi);
        NothingFreed(View());
        return [];
      }
      ghost var left := ClearRecursive(node.left, s.left, node, lo, node.rank);
      ghost var right := ClearRecursive(node.right, s.right, node, node.rank, hi);
      freed := left + right + [node];
      FreedAfter(View(), left, right, node);
      NodesOnce(View(), s, p, lo, hi);
    }

    /** In this order no node comes before a child that it is linked to. */
    ghost predicate ChildrenFirst(v: View, ns: seq<Node>) {
      forall j :: 0 <= j < |ns| ==>
        && ns[j] in v.cells
        && (v.cells[ns[j]].left == v.nil || v.cells[ns[j]].left in ns[..j])
        && (v.cells[ns[j]].right == v.nil || v.cells[ns[j]].right in ns[..j])
    }

    lemma FreedBefore(v: View, all: set<Node>, ns: seq<Node>, i: nat, j: nat)
      requires ChildrenFirst(v, ns) && multiset(ns) == multiset(all) && v.nil !in all && i < |ns| && j < |ns|
      requires ns[j] in v.cells && (ns[i] == v.cells[ns[j]].left || ns[i] == v.cells[ns[j]].right)
      ensures i < j
    {
      assert ns[i] in multiset(ns);
      var k :| 0 <= k < j && ns[k] == ns[i];
      if k < i { CountedTwice(ns, k, i); }
    }

    lemma CountedTwice(ns: seq<Node>, k: nat, i: nat)
      requires k < i < |ns| && ns[k] == ns[i]
      ensures multiset(ns)[ns[i]] >= 2
    {
      assert ns == ns[..i] + [ns[i]] + ns[i + 1..] && ns[k] == ns[..i][k];
      assert ns[k] in multiset(ns[..i]);
    }

    lemma NothingFreed(v: View)
      ensures ChildrenFirst(v, [])
    {
    }

    lemma FreedAfter(v: View, a: seq<Node>, b: seq<Node>, n: Node)
      requires ChildrenFirst(v, a) && ChildrenFirst(v, b) && n in v.cells
      requires v.cells[n].left == v.nil || v.cells[n].left in a
      requires v.cells[n].right == v.nil || v.cells[n].right in b
      ensures ChildrenFirst(v, a + b + [n])
    {
      var ns := a + b + [n];
      assert forall j :: 0 <= j < |a| ==> ns[j] == a[j] && ns[..j] == a[..j];
      assert forall j :: |a| <= j < |a + b| ==> ns[j] == b[j - |a|] && ns[..j] == a + b[..j - |a|];
      assert ns[..|a + b|] == a + b;
    }

    /** No node stands twice in a tree. */
    lemma NodesOnce(v: View, s: Shape, p: Node, lo: real, hi: real)
      requires Linked(v, s, p, lo, hi)
      ensures s.Nil? ==> Nodes(s) == {}
      ensures s.Branch? ==> multiset(Nodes(s)) == multiset(Nodes(s.left)) + multiset(Nodes(s.right)) + multiset{s.node}
    {
      if s.Branch? {
        NodesInside(v, s.left, s.node, lo, s.node.rank);
        NodesInside(v, s.right, s.node, s.node.rank, hi);
      }
    }

    /** Takes out the node at `pos` and returns the place of its in-order successor. */
    method Erase(pos: Iterator) returns (next: Iterator)
      requires Valid() && (pos.node in repr || pos.node == nil) && (pos.nil == nil || pos.nil == pos.node)
      modifies this, repr, nil`parent, nil`color
      ensures Valid() && next.nil == nil && old(rotations) <= rotations <= old(rotations) + 3
      ensures pos.node == nil ==> next.node == nil && repr == old(repr) && size == old(size) && shape == old(shape)
      ensures pos.node == nil ==> View() == old(View())
      ensures pos.node != nil ==> repr == old(repr) - {pos.node} && size == old(size) - 1
      ensures pos.node != nil ==> IsNext(comp, old(repr), nil, pos.node, next.node)
    {
      if pos == Iterator(nil, nil) {
        return Iterator(nil, nil);
      }
      var node := pos.node;
      var succ := GetSuccessor(node, nil);
      next := Iterator(succ, nil);
      RemoveOne(node);
    }

    method LowerBound(key: Key) returns (it: Iterator)
      requires Valid()
      ensures it.nil == nil && IsLowerBound(comp, repr, nil, key, it.node)
      ensures it.node != nil ==> it.node in repr && !comp(it.node.data, key)
      ensures forall m :: m in repr && !comp(m.data, key) ==>
                it.node != nil && (m == it.node || comp(it.node.data, m.data))
    {
      var result;
      ghost var ctx, s;
      ghost var steps;
      result, ctx, s, steps := LowerBoundImpl(key);
      IsReady(View(), comp, Top, shape);
      forall m | m in repr && !comp(m.data, key)
        ensures result != nil && (m == result || comp(result.data, m.data))
      {
        LowerBoundIsFirst(View(), comp, key, result, m);
      }
      it := if result != nil then Iterator(result, nil) else Iterator(nil, nil);
    }

    method UpperBound(key: Key) returns (it: Iterator)
      requires Valid()
      ensures it.nil == nil && IsUpperBound(comp, repr, nil, key, it.node)
      ensures it.node != nil ==> it.node in repr && comp(key, it.node.data)
      ensures forall m :: m in repr && comp(key, m.data) ==>
                it.node != nil && (m == it.node || comp(it.node.data, m.data))
    {
      var result;
      ghost var ctx, s;
      ghost var steps;
      result, ctx, s, steps := UpperBoundImpl(key);
      IsReady(View(), comp, Top, shape);
      forall m | m in repr && comp(key, m.data)
        ensures result != nil && (m == result || comp(result.data, m.data))
      {
        UpperBoundIsFirst(View(), comp, key, result, m);
      }
      it := if result != nil then Iterator(result, nil) else Iterator(nil, nil);
    }

    /** The nodes equivalent to `key`: none when the two ends agree, otherwise exactly the first, and the last follows
        it. */
    method EqualRange(key: Key) returns (first: Iterator, last: Iterator)
      requires Valid()
      ensures first.nil == nil && last.nil == nil
      ensures first == last ==> forall m :: m in repr ==> !Equivalent(m.data, key)
      ensures first != last ==> first.node in repr && IsNext(comp, repr, nil, first.node, last.node)
      ensures first != last ==> forall m :: m in repr ==> (Equivalent(m.data, key) <==> m == first.node)
    {
      first := LowerBound(key);
      last := UpperBound(key);
      IsReady(View(), comp, Top, shape);
      RangeIsEquivalent(View(), comp, key, first.node, last.node);
    }

    /** Removes the node whose key is equivalent to `key`, if there is one, and counts what was removed. */
    method Remove(key: Key) returns (removed: nat)
      requires Valid()
      modifies this, repr, nil`parent, nil`color
      ensures Valid() && size == old(size) - removed && old(rotations) <= rotations <= old(rotations) + 3
      ensures removed == 0 ==> repr == old(repr) && shape == old(shape) && View() == old(View())
      ensures removed == 0 ==> forall m :: m in old(repr) ==> !Equivalent(m.data, key)
      ensures removed != 0 ==>
                removed == 1 && exists m :: m in old(repr) && Equivalent(m.data, key) && repr == old(repr) - {m}
    {
      removed := 0;
      var first, last := EqualRange(key);
      ghost var target := first.node;
      while first != last
        invariant Valid() && first.nil == nil && last.nil == nil
        invariant removed == 0 ==> repr == old(repr) && size == old(size) && first.node == target
        invariant removed == 0 ==> shape == old(shape) && View() == old(View()) && rotations == old(rotations)
        invariant old(rotations) <= rotations <= old(rotations) + 3
        invariant removed == 0 && first != last ==>
                    target in repr && IsNext(comp, repr, nil, target, last.node) && Equivalent(target.data, key)
        invariant removed != 0 ==> removed == 1 && first == last && size == old(size) - 1
        invariant removed != 0 ==> target in old(repr) && Equivalent(target.data, key) && repr == old(repr) - {target}
        decreases 1 - removed
      {
        ghost var v, was := View(), first.node;
        IsReady(v, comp, Top, shape);
        removed := removed + 1;
        first := Erase(first);
        NextIsUnique(v, comp, was, first.node, last.node);
      }
    }

    /** The keys in the order in which iteration from `begin()` to `end()` meets them. */
    method InOrder() returns (out: seq<Key>, ghost nodes: seq<Node>)
      requires Valid()
      ensures |out| == |nodes| == size && forall i :: 0 <= i < size ==> out[i] == nodes[i].data
      ensures forall m :: m in repr <==> m in nodes
      ensures forall i, j :: 0 <= i < j < size ==> comp(out[i], out[j])
    {
      ghost var v := View();
      IsReady(v, comp, Top, shape);
      var first := Begin();
      LeastIsFirst(v, comp, first.node);
      out, nodes := Walk(first, v);
      VisitedSize(v, comp, nodes, nil);
    }

    method Walk(first: Iterator, ghost v: View) returns (out: seq<Key>, ghost nodes: seq<Node>)
      requires Valid() && v.cells.Keys == repr && v.nil == nil && Ready(v, comp)
      requires first.nil == nil && (first.node in repr || first.node == nil) && Visited(v, comp, [], first.node)
      ensures Visited(v, comp, nodes, nil)
      ensures |out| == |nodes| && forall i :: 0 <= i < |out| ==> out[i] == nodes[i].data
    {
      hide Visited, Ready, Ordered, StrictWeakOrder, RedBlack, Focus, All;
      out, nodes := [], [];
      var it := first;
      while it != Iterator(nil, nil)
        invariant Valid() && it.nil == nil && (it.node in repr || it.node == nil)
        invariant Visited(v, comp, nodes, it.node)
        invariant |out| == |nodes| && forall i :: 0 <= i < |out| ==> out[i] == nodes[i].data
        decreases |repr| - |nodes|
      {
        var next := Increment(it);
        VisitNext(v, comp, nodes, it.node, next.node);
        out, nodes, it := out + [it.node.data], nodes + [it.node], next;
      }
    }
  }

  // ----- several trees with the same sentinel

  /** Inserting into one tree leaves another one alone. */
  method InsertBeside(a: RedBlackTree, b: RedBlackTree, val: Key) returns (it: Iterator)
    requires a.Valid() && b.Valid() && a != b && a.nil == b.nil && a.repr !! b.repr
    modifies a, a.repr
    ensures a.Valid() && b.Valid() && a.repr !! b.repr
    ensures b.View() == old(b.View()) && b.shape == old(b.shape) && b.size == old(b.size)
  {
    hide Focus, All, Ordered, StrictWeakOrder, RedBlack;
    it := a.Insert(val);
  }

  /** So does removing, although it writes to the sentinel that both share. */
  method RemoveBeside(a: RedBlackTree, b: RedBlackTree, key: Key) returns (removed: nat)
    requires a.Valid() && b.Valid() && a != b && a.nil == b.nil && a.repr !! b.repr
    modifies a, a.repr, a.nil`parent, a.nil`color
    ensures a.Valid() && b.Valid() && a.repr !! b.repr
    ensures b.View() == old(b.View()) && b.shape == old(b.shape) && b.size == old(b.size)
  {
    hide Focus, All, Ordered, StrictWeakOrder, RedBlack;
    removed := a.Remove(key);
  }
}
