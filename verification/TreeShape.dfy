/** Nodes of the red-black tree, and the theory of how a set of linked nodes forms a tree.

    A `Shape` is the tree a root pointer denotes; a `Context` is the rest of the tree around one
    subtree, read from that subtree upwards. A loop that moves a pointer through the tree is
    described by a pair (context, shape), and every link it changes is at the border of the two.
    The lemmas here say how a change of a few links changes that description. */
module TreeShape {

  datatype Color = Red | Black

  /** Any type of keys; the tree orders them only through its comparison. */
  type Key(==, !new)

  class Node {
    const data: Key
    /** The node's place on the line of all keys: nodes further right in the tree have a larger one. */
    ghost const rank: real
    var color: Color
    var parent: Node?
    var left: Node?
    var right: Node?

    constructor (value: Key, ghost rank: real)
      ensures data == value && this.rank == rank && color == Red
      ensures parent == null && left == null && right == null
    {
      data, color := value, Red;
      this.rank := rank;
      parent, left, right := null, null, null;
    }
  }

  datatype Side = Left | Right {
    function Other(): Side {
      if Left? then Right else Left
    }
  }

  datatype Shape = Nil | Branch(left: Shape, node: Node, color: Color, right: Shape)

  /** The surroundings of a subtree: it hangs on the given side of `node`, whose other subtree is `sibling`. */
  datatype Context = Top | Frame(side: Side, node: Node, color: Color, sibling: Shape, up: Context)

  /** What a node's fields hold, and what the whole tree's pointers hold, at one moment. */
  datatype Cell = Cell(color: Color, parent: Node?, left: Node?, right: Node?)
  datatype View = Snapshot(nil: Node, root: Node, cells: map<Node, Cell>)

  // ----- building and taking apart, by side

  ghost function Join(side: Side, near: Shape, n: Node, c: Color, far: Shape): Shape {
    if side.Left? then Branch(near, n, c, far) else Branch(far, n, c, near)
  }

  ghost function Child(side: Side, s: Shape): Shape
    requires s.Branch?
  {
    if side.Left? then s.left else s.right
  }

  ghost function SetChild(side: Side, cell: Cell, n: Node): Cell {
    if side.Left? then cell.(left := n) else cell.(right := n)
  }

  ghost function Plug(ctx: Context, s: Shape): Shape {
    match ctx
    case Top => s
    case Frame(side, n, c, sib, up) => Plug(up, Join(side, s, n, c, sib))
  }

  /** The surroundings of one child of `s`. */
  ghost function Into(side: Side, ctx: Context, s: Shape): Context
    requires s.Branch?
  {
    Frame(side, s.node, s.color, Child(side.Other(), s), ctx)
  }

  ghost function Append(inner: Context, outer: Context): Context {
    match inner
    case Top => outer
    case Frame(side, n, c, sib, up) => Frame(side, n, c, sib, Append(up, outer))
  }

  ghost function Depth(ctx: Context): nat {
    if ctx.Top? then 0 else 1 + Depth(ctx.up)
  }

  ghost function Nodes(s: Shape): set<Node> {
    match s
    case Nil => {}
    case Branch(l, n, _, r) => Nodes(l) + {n} + Nodes(r)
  }

  ghost function CtxNodes(ctx: Context): set<Node> {
    match ctx
    case Top => {}
    case Frame(_, n, _, sib, up) => {n} + Nodes(sib) + CtxNodes(up)
  }

  /** The rotation that moves the root of `s` down to the given side. */
  ghost function Rotate(side: Side, s: Shape): Shape
    requires s.Branch? && Child(side.Other(), s).Branch?
  {
    var y := Child(side.Other(), s);
    Join(side, Join(side, Child(side, s), s.node, s.color, Child(side, y)), y.node, y.color, Child(side.Other(), y))
  }

  // ----- linked nodes

  ghost function Root(nil: Node, s: Shape): Node {
    if s.Nil? then nil else s.node
  }

  ghost function Parent(nil: Node, ctx: Context): Node {
    if ctx.Top? then nil else ctx.node
  }

  /** The open interval of ranks that the hole of a context leaves for its subtree. */
  ghost function Lo(ctx: Context): real {
    match ctx
    case Top => 0.0
    case Frame(side, n, _, _, up) => if side.Left? then Lo(up) else n.rank
  }

  ghost function Hi(ctx: Context): real {
    match ctx
    case Top => 1.0
    case Frame(side, n, _, _, up) => if side.Left? then n.rank else Hi(up)
  }

  /** The nodes hold exactly the links of `s`, whose root has parent `p`, in rank order within (lo, hi). */
  ghost predicate Linked(v: View, s: Shape, p: Node, lo: real, hi: real) {
    match s
    case Nil => true
    case Branch(l, n, c, r) =>
      && lo < n.rank < hi
      && n in v.cells && v.cells[n] == Cell(c, p, Root(v.nil, l), Root(v.nil, r))
      && Linked(v, l, n, lo, n.rank) && Linked(v, r, n, n.rank, hi)
  }

  /** The nodes hold exactly the links of `ctx`, with `hole` where its subtree hangs. */
  ghost predicate CtxLinked(v: View, ctx: Context, hole: Node) {
    match ctx
    case Top => v.root == hole
    case Frame(side, n, c, sib, up) =>
      && n in v.cells
      && v.cells[n] ==
           SetChild(side, SetChild(side.Other(), Cell(c, Parent(v.nil, up), null, null), Root(v.nil, sib)), hole)
      && 0.0 <= Lo(up) < n.rank < Hi(up) <= 1.0
      && (if side.Left? then Linked(v, sib, n, n.rank, Hi(up)) else Linked(v, sib, n, Lo(up), n.rank))
      && CtxLinked(v, up, n)
  }

  /** The tree's pointers are those of `Plug(ctx, s)`, looked at from the subtree `s`. */
  ghost predicate Focus(v: View, ctx: Context, s: Shape) {
    && v.nil.rank == 0.0
    && 0.0 <= Lo(ctx) < Hi(ctx) <= 1.0
    && Linked(v, s, Parent(v.nil, ctx), Lo(ctx), Hi(ctx))
    && CtxLinked(v, ctx, Root(v.nil, s))
  }

  // ----- what is untouched stays linked

  lemma LinkedFrame(v: View, v': View, s: Shape, p: Node, lo: real, hi: real)
    requires Linked(v, s, p, lo, hi) && v'.nil == v.nil
    requires forall n :: n in v.cells && lo < n.rank < hi ==> n in v'.cells && v'.cells[n] == v.cells[n]
    ensures Linked(v', s, p, lo, hi)
  {
    match s
    case Nil =>
    case Branch(l, n, _, r) =>
      LinkedFrame(v, v', l, n, lo, n.rank);
      LinkedFrame(v, v', r, n, n.rank, hi);
  }

  lemma CtxLinkedFrame(v: View, v': View, ctx: Context, hole: Node)
    requires CtxLinked(v, ctx, hole) && v'.nil == v.nil && v.root == v'.root
    requires Lo(ctx) < Hi(ctx)
    requires forall n :: n in v.cells && (n.rank <= Lo(ctx) || n.rank >= Hi(ctx)) ==>
               n in v'.cells && v'.cells[n] == v.cells[n]
    ensures CtxLinked(v', ctx, hole)
  {
    match ctx
    case Top =>
    case Frame(side, n, _, sib, up) =>
      CtxLinkedFrame(v, v', up, n);
      if side.Left? {
        LinkedFrame(v, v', sib, n, n.rank, Hi(up));
      } else {
        LinkedFrame(v, v', sib, n, Lo(up), n.rank);
      }
  }

  lemma Widen(v: View, s: Shape, p: Node, lo: real, hi: real, lo': real, hi': real)
    requires Linked(v, s, p, lo, hi) && lo' <= lo && hi <= hi'
    ensures Linked(v, s, p, lo', hi')
  {
    match s
    case Nil =>
    case Branch(l, n, _, r) =>
      Widen(v, l, n, lo, n.rank, lo', n.rank);
      Widen(v, r, n, n.rank, hi, n.rank, hi');
  }

  /** Only the root's parent link of a linked subtree changes. */
  lemma Reparented(v: View, v': View, s: Shape, p: Node, p': Node, lo: real, hi: real)
    requires Linked(v, s, p, lo, hi) && v'.nil == v.nil
    requires s.Branch? ==> s.node in v'.cells && v'.cells[s.node] == v.cells[s.node].(parent := p')
    requires forall n :: n in v.cells && lo < n.rank < hi && (s.Branch? ==> n != s.node) ==>
               n in v'.cells && v'.cells[n] == v.cells[n]
    ensures Linked(v', s, p', lo, hi)
  {
    if s.Branch? {
      LinkedFrame(v, v', s.left, s.node, lo, s.node.rank);
      LinkedFrame(v, v', s.right, s.node, s.node.rank, hi);
    }
  }

  /** The link down into the hole of `ctx` now reads `h`, and the nodes around are otherwise unchanged. */
  ghost predicate Rehung(v: View, v': View, ctx: Context, h: Node) {
    && v'.nil == v.nil
    && v'.root == (if ctx.Top? then h else v.root)
    && (ctx.Frame? ==>
         ctx.node in v.cells && ctx.node in v'.cells && v'.cells[ctx.node] == SetChild(ctx.side, v.cells[ctx.node], h))
    && forall n :: n in v.cells && (n.rank <= Lo(ctx) || n.rank >= Hi(ctx)) && (ctx.Frame? ==> n != ctx.node) ==>
         n in v'.cells && v'.cells[n] == v.cells[n]
  }

  lemma CtxRehung(v: View, v': View, ctx: Context, h: Node, h': Node)
    requires CtxLinked(v, ctx, h) && Lo(ctx) < Hi(ctx)
    requires Rehung(v, v', ctx, h')
    ensures CtxLinked(v', ctx, h')
  {
    if ctx.Frame? {
      CtxLinkedFrame(v, v', ctx.up, ctx.node);
      if ctx.side.Left? {
        LinkedFrame(v, v', ctx.sibling, ctx.node, ctx.node.rank, Hi(ctx.up));
      } else {
        LinkedFrame(v, v', ctx.sibling, ctx.node, Lo(ctx.up), ctx.node.rank);
      }
    }
  }

  // ----- moving the focus

  lemma FocusUp(v: View, side: Side, n: Node, c: Color, sib: Shape, up: Context, s: Shape)
    ensures Focus(v, Frame(side, n, c, sib, up), s) <==> Focus(v, up, Join(side, s, n, c, sib))
  {
  }

  lemma {:induction false} Refocus(v: View, inner: Context, outer: Context, s: Shape)
    ensures Focus(v, Append(inner, outer), s) <==> Focus(v, outer, Plug(inner, s))
  {
    match inner
    case Top =>
    case Frame(side, n, c, sib, up) =>
      FocusUp(v, side, n, c, sib, Append(up, outer), s);
      Refocus(v, up, outer, Join(side, s, n, c, sib));
  }

  lemma {:induction false} AppendTop(ctx: Context)
    ensures Append(ctx, Top) == ctx
  {
    if ctx.Frame? { AppendTop(ctx.up); }
  }

  lemma {:induction false} PlugAppend(inner: Context, outer: Context, s: Shape)
    ensures Plug(Append(inner, outer), s) == Plug(outer, Plug(inner, s))
  {
    match inner
    case Top =>
    case Frame(side, n, c, sib, up) => PlugAppend(up, outer, Join(side, s, n, c, sib));
  }

  /** Every node of a tree can be focused on. */
  lemma {:induction false} Locate(s: Shape, n: Node) returns (ctx: Context, t: Shape)
    requires n in Nodes(s)
    ensures Plug(ctx, t) == s && t.Branch? && t.node == n
  {
    if n == s.node {
      ctx, t := Top, s;
    } else if n in Nodes(s.left) {
      ctx, t := Locate(s.left, n);
      var outer := Frame(Left, s.node, s.color, s.right, Top);
      PlugAppend(ctx, outer, t);
      ctx := Append(ctx, outer);
    } else {
      ctx, t := Locate(s.right, n);
      var outer := Frame(Right, s.node, s.color, s.left, Top);
      PlugAppend(ctx, outer, t);
      ctx := Append(ctx, outer);
    }
  }

  // ----- the set of nodes

  lemma {:induction false} PlugNodes(ctx: Context, s: Shape)
    ensures Nodes(Plug(ctx, s)) == CtxNodes(ctx) + Nodes(s)
  {
    if ctx.Frame? {
      PlugNodes(ctx.up, Join(ctx.side, s, ctx.node, ctx.color, ctx.sibling));
    }
  }

  lemma {:induction false} AppendNodes(inner: Context, outer: Context)
    ensures CtxNodes(Append(inner, outer)) == CtxNodes(inner) + CtxNodes(outer)
  {
    if inner.Frame? { AppendNodes(inner.up, outer); }
  }

  /** All the nodes of the tree that is looked at from `s`. */
  ghost function All(ctx: Context, s: Shape): set<Node> {
    CtxNodes(ctx) + Nodes(s)
  }

  lemma AllUp(ctx: Context, s: Shape)
    requires ctx.Frame?
    ensures All(ctx, s) == All(ctx.up, Join(ctx.side, s, ctx.node, ctx.color, ctx.sibling))
  {
    assert Nodes(Join(ctx.side, s, ctx.node, ctx.color, ctx.sibling)) == Nodes(s) + {ctx.node} + Nodes(ctx.sibling);
  }

  /** The snapshot shows exactly the tree `Plug(ctx, s)`: no other node, and the sentinel outside. */
  ghost predicate Whole(v: View, ctx: Context, s: Shape) {
    v.nil !in v.cells && All(ctx, s) == v.cells.Keys && Focus(v, ctx, s)
  }

  lemma WholeUp(v: View, ctx: Context, s: Shape)
    requires ctx.Frame?
    ensures Whole(v, ctx, s) <==> Whole(v, ctx.up, Join(ctx.side, s, ctx.node, ctx.color, ctx.sibling))
  {
    AllUp(ctx, s);
    FocusUp(v, ctx.side, ctx.node, ctx.color, ctx.sibling, ctx.up, s);
  }

  /** The same tree, looked at from its root. */
  lemma {:induction false} WholeTop(v: View, ctx: Context, s: Shape)
    ensures Whole(v, ctx, s) <==> Whole(v, Top, Plug(ctx, s))
  {
    if ctx.Frame? {
      WholeUp(v, ctx, s);
      WholeTop(v, ctx.up, Join(ctx.side, s, ctx.node, ctx.color, ctx.sibling));
    }
  }

  lemma RotateNodes(side: Side, s: Shape)
    requires s.Branch? && Child(side.Other(), s).Branch?
    ensures Nodes(Rotate(side, s)) == Nodes(s)
  {
    var y := Child(side.Other(), s);
    assert Nodes(s) == Nodes(Child(side, s)) + {s.node} + Nodes(y);
    assert Nodes(y) == Nodes(Child(side, y)) + {y.node} + Nodes(Child(side.Other(), y));
    var x := Join(side, Child(side, s), s.node, s.color, Child(side, y));
    assert Nodes(x) == Nodes(Child(side, s)) + {s.node} + Nodes(Child(side, y));
    assert Nodes(Rotate(side, s)) == Nodes(x) + {y.node} + Nodes(Child(side.Other(), y));
  }

  lemma {:induction false} NodesInside(v: View, s: Shape, p: Node, lo: real, hi: real)
    requires Linked(v, s, p, lo, hi)
    ensures forall n :: n in Nodes(s) ==> lo < n.rank < hi && n in v.cells
  {
    if s.Branch? {
      NodesInside(v, s.left, s.node, lo, s.node.rank);
      NodesInside(v, s.right, s.node, s.node.rank, hi);
    }
  }

  lemma {:induction false} NodesOutside(v: View, ctx: Context, hole: Node)
    requires CtxLinked(v, ctx, hole) && Lo(ctx) < Hi(ctx)
    ensures forall n :: n in CtxNodes(ctx) ==> (0.0 < n.rank <= Lo(ctx) || Hi(ctx) <= n.rank < 1.0) && n in v.cells
  {
    match ctx
    case Top =>
    case Frame(side, n, _, sib, up) =>
      NodesOutside(v, up, n);
      if side.Left? {
        NodesInside(v, sib, n, n.rank, Hi(up));
      } else {
        NodesInside(v, sib, n, Lo(up), n.rank);
      }
  }

  lemma {:induction false} RankInjective(v: View, s: Shape, p: Node, lo: real, hi: real, m: Node, n: Node)
    requires Linked(v, s, p, lo, hi) && m in Nodes(s) && n in Nodes(s) && m.rank == n.rank
    ensures m == n
  {
    NodesInside(v, s.left, s.node, lo, s.node.rank);
    NodesInside(v, s.right, s.node, s.node.rank, hi);
    if m in Nodes(s.left) && n in Nodes(s.left) {
      RankInjective(v, s.left, s.node, lo, s.node.rank, m, n);
    } else if m in Nodes(s.right) && n in Nodes(s.right) {
      RankInjective(v, s.right, s.node, s.node.rank, hi, m, n);
    }
  }

  // ----- the changes the tree makes

  /** Setting the color of the focused node. */
  lemma Painted(v: View, v': View, ctx: Context, s: Shape, c: Color)
    requires Focus(v, ctx, s) && s.Branch? && s.node in v.cells
    requires v' == v.(cells := v.cells[s.node := v.cells[s.node].(color := c)])
    ensures Focus(v', ctx, s.(color := c))
  {
    LinkedFrame(v, v', s.left, s.node, Lo(ctx), s.node.rank);
    LinkedFrame(v, v', s.right, s.node, s.node.rank, Hi(ctx));
    CtxLinkedFrame(v, v', ctx, s.node);
  }

  /** The links a rotation at `x` leaves behind: `y` takes the place of `x`, and `b` moves from `y` to `x`. */
  ghost predicate RotatedLinks(v: View, v': View, ctx: Context, side: Side, x: Node, b: Shape, y: Node) {
    && v'.nil == v.nil
    && v'.root == (if ctx.Top? then y else v.root)
    && (ctx.Frame? ==>
         ctx.node in v.cells && ctx.node in v'.cells && v'.cells[ctx.node] == SetChild(ctx.side, v.cells[ctx.node], y))
    && (b.Branch? ==> b.node in v.cells && b.node in v'.cells && v'.cells[b.node] == v.cells[b.node].(parent := x))
    && x in v.cells && x in v'.cells && v'.cells[x] == SetChild(side.Other(), v.cells[x].(parent := y), Root(v.nil, b))
    && y in v.cells && y in v'.cells && v'.cells[y] == SetChild(side, v.cells[y].(parent := Parent(v.nil, ctx)), x)
    && forall n :: n in v.cells && n != x && n != y && (b.Branch? ==> n != b.node) && (ctx.Frame? ==> n != ctx.node) ==>
         n in v'.cells && v'.cells[n] == v.cells[n]
  }

  lemma ShapeRotatedLeft(v: View, v': View, p: Node, p': Node, lo: real, hi: real,
                         a: Shape, x: Node, cx: Color, b: Shape, y: Node, cy: Color, g: Shape)
    requires Linked(v, Branch(a, x, cx, Branch(b, y, cy, g)), p, lo, hi)
    requires v'.nil == v.nil && x in v'.cells && y in v'.cells
    requires v'.cells[x] == Cell(cx, y, Root(v.nil, a), Root(v.nil, b))
    requires v'.cells[y] == Cell(cy, p', x, Root(v.nil, g))
    requires b.Branch? ==> b.node in v.cells && b.node in v'.cells && v'.cells[b.node] == v.cells[b.node].(parent := x)
    requires forall n :: n in v.cells && lo < n.rank < hi && n != x && n != y && (b.Branch? ==> n != b.node) ==>
                n in v'.cells && v'.cells[n] == v.cells[n]
    ensures Linked(v', Branch(Branch(a, x, cx, b), y, cy, g), p', lo, hi)
  {
    assert Linked(v, Branch(b, y, cy, g), x, x.rank, hi);
    assert Linked(v, b, y, x.rank, y.rank);
    assert b.Branch? ==> x.rank < b.node.rank < y.rank;
    LinkedFrame(v, v', a, x, lo, x.rank);
    LinkedFrame(v, v', g, y, y.rank, hi);
    Reparented(v, v', b, y, x, x.rank, y.rank);
    assert Linked(v', Branch(a, x, cx, b), y, lo, y.rank);
  }

  lemma ShapeRotatedRight(v: View, v': View, p: Node, p': Node, lo: real, hi: real,
                          a: Shape, x: Node, cx: Color, b: Shape, y: Node, cy: Color, g: Shape)
    requires Linked(v, Branch(Branch(g, y, cy, b), x, cx, a), p, lo, hi)
    requires v'.nil == v.nil && x in v'.cells && y in v'.cells
    requires v'.cells[x] == Cell(cx, y, Root(v.nil, b), Root(v.nil, a))
    requires v'.cells[y] == Cell(cy, p', Root(v.nil, g), x)
    requires b.Branch? ==> b.node in v.cells && b.node in v'.cells && v'.cells[b.node] == v.cells[b.node].(parent := x)
    requires forall n :: n in v.cells && lo < n.rank < hi && n != x && n != y && (b.Branch? ==> n != b.node) ==>
                n in v'.cells && v'.cells[n] == v.cells[n]
    ensures Linked(v', Branch(g, y, cy, Branch(b, x, cx, a)), p', lo, hi)
  {
    assert Linked(v, Branch(g, y, cy, b), x, lo, x.rank);
    assert Linked(v, b, y, y.rank, x.rank);
    assert b.Branch? ==> y.rank < b.node.rank < x.rank;
    LinkedFrame(v, v', a, x, x.rank, hi);
    LinkedFrame(v, v', g, y, lo, y.rank);
    Reparented(v, v', b, y, x, y.rank, x.rank);
    assert Linked(v', Branch(b, x, cx, a), y, y.rank, hi);
  }

  /** The nodes that a rotation touches are pairwise different, and none of them is the sentinel. */
  lemma RotationNeighbours(v: View, ctx: Context, side: Side, s: Shape)
    requires Focus(v, ctx, s) && s.Branch? && Child(side.Other(), s).Branch?
    ensures var x, y := s.node, Child(side.Other(), s).node;
            var b := Child(side, Child(side.Other(), s));
            && x in v.cells && y in v.cells && x != y && Lo(ctx) < x.rank < Hi(ctx) && Lo(ctx) < y.rank < Hi(ctx)
            && (b.Branch? ==>
                 b.node in v.cells && b.node != x && b.node != y && b.node != v.nil && Lo(ctx) < b.node.rank < Hi(ctx))
            && (ctx.Frame? ==>
                 ctx.node in v.cells && ctx.node != v.nil && (ctx.node.rank <= Lo(ctx) || ctx.node.rank >= Hi(ctx)))
  {
    var y := Child(side.Other(), s);
    if side.Left? {
      assert Linked(v, y, s.node, s.node.rank, Hi(ctx));
      assert Linked(v, y.left, y.node, s.node.rank, y.node.rank);
    } else {
      assert Linked(v, y, s.node, Lo(ctx), s.node.rank);
      assert Linked(v, y.right, y.node, y.node.rank, s.node.rank);
    }
  }

  lemma Rotated(v: View, v': View, ctx: Context, side: Side, s: Shape)
    requires Focus(v, ctx, s) && s.Branch? && Child(side.Other(), s).Branch?
    requires RotatedLinks(v, v', ctx, side, s.node, Child(side, Child(side.Other(), s)), Child(side.Other(), s).node)
    ensures Focus(v', ctx, Rotate(side, s))
  {
    var y := Child(side.Other(), s);
    var p := Parent(v.nil, ctx);
    RotationNeighbours(v, ctx, side, s);
    if side.Left? {
      assert Linked(v, y, s.node, s.node.rank, Hi(ctx));
      ShapeRotatedLeft(v, v', p, p, Lo(ctx), Hi(ctx), s.left, s.node, s.color, y.left, y.node, y.color, y.right);
    } else {
      assert Linked(v, y, s.node, Lo(ctx), s.node.rank);
      ShapeRotatedRight(v, v', p, p, Lo(ctx), Hi(ctx), s.right, s.node, s.color, y.right, y.node, y.color, y.left);
    }
    CtxRehung(v, v', ctx, s.node, y.node);
  }

  /** A new leaf is linked into an empty hole. */
  lemma LeafAdded(v: View, v': View, ctx: Context, n: Node)
    requires Focus(v, ctx, Nil) && Lo(ctx) < n.rank < Hi(ctx)
    requires Rehung(v, v', ctx, n)
    requires n in v'.cells && v'.cells[n] == Cell(Red, Parent(v.nil, ctx), v.nil, v.nil)
    ensures Focus(v', ctx, Branch(Nil, n, Red, Nil))
  {
    CtxRehung(v, v', ctx, v.nil, n);
  }

  /** A hole leaves room for a rank, and its parent is there. */
  lemma RoomForLeaf(v: View, ctx: Context)
    requires Focus(v, ctx, Nil)
    ensures Lo(ctx) < Hi(ctx) && (ctx.Frame? ==> ctx.node in v.cells)
  {
  }

  lemma LeafHung(v: View, v': View, ctx: Context, n: Node)
    requires Focus(v, ctx, Nil) && ctx.Frame? && Lo(ctx) < n.rank < Hi(ctx) && n !in v.cells && ctx.node in v.cells
    requires v' == v.(cells :=
               v.cells[ctx.node := SetChild(ctx.side, v.cells[ctx.node], n)][n := Cell(Red, ctx.node, v.nil, v.nil)])
    ensures Focus(v', ctx, Branch(Nil, n, Red, Nil)) && All(ctx, Branch(Nil, n, Red, Nil)) == All(ctx, Nil) + {n}
  {
    LeafAdded(v, v', ctx, n);
  }

  /** The links left behind when `w` takes the place of the subtree of `u`; what `u` itself holds is left open. */
  ghost predicate TransplantedLinks(v: View, v': View, ctx: Context, u: Node, w: Node) {
    && v'.nil == v.nil
    && v'.root == (if ctx.Top? then w else v.root)
    && (ctx.Frame? ==>
         ctx.node in v.cells && ctx.node in v'.cells && v'.cells[ctx.node] == SetChild(ctx.side, v.cells[ctx.node], w))
    && (w != v.nil ==> w in v.cells && w in v'.cells && v'.cells[w] == v.cells[w].(parent := Parent(v.nil, ctx)))
    && forall n :: n in v.cells && n != u && n != w && (ctx.Frame? ==> n != ctx.node) ==>
         n in v'.cells && v'.cells[n] == v.cells[n]
  }

  /** A part `t` of a subtree, on one side of its root `u`, takes the place of the whole. */
  lemma Transplanted(v: View, v': View, ctx: Context, u: Node, t: Shape, q: Node, lo: real, hi: real)
    requires 0.0 <= Lo(ctx) < Hi(ctx) <= 1.0 && v.nil.rank == 0.0 && v.nil !in v.cells
    requires CtxLinked(v, ctx, u) && Lo(ctx) < u.rank < Hi(ctx)
    requires Linked(v, t, q, lo, hi) && Lo(ctx) <= lo && hi <= Hi(ctx) && !(lo < u.rank < hi)
    requires TransplantedLinks(v, v', ctx, u, Root(v.nil, t))
    ensures Linked(v', t, Parent(v.nil, ctx), lo, hi)
    ensures Focus(v', ctx, t)
  {
    assert t.Branch? ==> lo < t.node.rank < hi;
    assert ctx.Frame? ==> ctx.node.rank <= Lo(ctx) || ctx.node.rank >= Hi(ctx);
    Reparented(v, v', t, q, Parent(v.nil, ctx), lo, hi);
    Widen(v', t, Parent(v.nil, ctx), lo, hi, Lo(ctx), Hi(ctx));
    CtxRehung(v, v', ctx, u, Root(v.nil, t));
  }

  lemma Spliced(v: View, v': View, ctx: Context, side: Side, s: Shape)
    requires Focus(v, ctx, s) && s.Branch? && v.nil !in v.cells
    requires TransplantedLinks(v, v', ctx, s.node, Root(v.nil, Child(side, s)))
    ensures Focus(v', ctx, Child(side, s))
  {
    if side.Left? {
      Transplanted(v, v', ctx, s.node, s.left, s.node, Lo(ctx), s.node.rank);
    } else {
      Transplanted(v, v', ctx, s.node, s.right, s.node, s.node.rank, Hi(ctx));
    }
  }

  /** The links left behind when `y` takes over the place, the color and both children of `u`. */
  ghost predicate ReplacedLinks(v: View, v': View, ctx: Context, u: Node, l: Shape, r: Shape, y: Node, c: Color) {
    && v'.nil == v.nil
    && v'.root == (if ctx.Top? then y else v.root)
    && (ctx.Frame? ==>
         ctx.node in v.cells && ctx.node in v'.cells && v'.cells[ctx.node] == SetChild(ctx.side, v.cells[ctx.node], y))
    && (l.Branch? ==> l.node in v.cells && l.node in v'.cells && v'.cells[l.node] == v.cells[l.node].(parent := y))
    && (r.Branch? ==> r.node in v.cells && r.node in v'.cells && v'.cells[r.node] == v.cells[r.node].(parent := y))
    && y in v'.cells && v'.cells[y] == Cell(c, Parent(v.nil, ctx), Root(v.nil, l), Root(v.nil, r))
    && forall n | n in v.cells && n != u && n != y && (l.Branch? ==> n != l.node) && (r.Branch? ==> n != r.node) &&
         (ctx.Frame? ==> n != ctx.node)
         :: n in v'.cells && v'.cells[n] == v.cells[n]
  }

  lemma Adopted(v: View, v1: View, v2: View, ctx: Context, u: Node, l: Shape, r: Shape, y: Node)
    requires u in v.cells && y in v.cells && l.Branch? && l.node in v.cells && u != y && l.node != y && l.node != u
    requires y != v.nil
    requires v.cells[u].parent == Parent(v.nil, ctx) && v.cells[u].left == l.node && v.cells[y].right == Root(v.nil, r)
    requires r.Branch? ==>
               r.node in v.cells && v.cells[r.node].parent == y && r.node != u && r.node != y && r.node != l.node
    requires ctx.Frame? ==> ctx.node != u && ctx.node != y && ctx.node != l.node && (r.Branch? ==> ctx.node != r.node)
    requires TransplantedLinks(v, v1, ctx, u, y) && l.node in v1.cells && y in v1.cells
    requires v2 == v1.(cells :=
               v1.cells[l.node := v1.cells[l.node].(parent := y)]
                       [y := v1.cells[y].(left := l.node, color := v.cells[u].color)])
    ensures ReplacedLinks(v, v2, ctx, u, l, r, y, v.cells[u].color)
  {
  }

  lemma ShapeReplaced(v: View, v': View, p: Node, u: Node, l: Shape, r: Shape, q: Node, y: Node, c: Color, lo: real,
      hi: real)
    requires lo < u.rank < y.rank < hi && v'.nil == v.nil
    requires Linked(v, l, u, lo, u.rank) && Linked(v, r, q, y.rank, hi)
    requires l.Branch? ==> l.node in v.cells && l.node in v'.cells && v'.cells[l.node] == v.cells[l.node].(parent := y)
    requires r.Branch? ==> r.node in v.cells && r.node in v'.cells && v'.cells[r.node] == v.cells[r.node].(parent := y)
    requires y in v'.cells && v'.cells[y] == Cell(c, p, Root(v.nil, l), Root(v.nil, r))
    requires forall n | n in v.cells && lo < n.rank < hi && n != u && n != y &&
               (l.Branch? ==> n != l.node) && (r.Branch? ==> n != r.node)
               :: n in v'.cells && v'.cells[n] == v.cells[n]
    ensures Linked(v', Branch(l, y, c, r), p, lo, hi)
  {
    assert l.Branch? ==> lo < l.node.rank < u.rank;
    assert r.Branch? ==> y.rank < r.node.rank < hi;
    Reparented(v, v', l, u, y, lo, u.rank);
    Widen(v', l, y, lo, u.rank, lo, y.rank);
    Reparented(v, v', r, q, y, y.rank, hi);
  }

  lemma Replaced(v: View, v': View, ctx: Context, u: Node, l: Shape, r: Shape, q: Node, y: Node, c: Color)
    requires 0.0 <= Lo(ctx) < Hi(ctx) <= 1.0 && v.nil.rank == 0.0
    requires CtxLinked(v, ctx, u) && Lo(ctx) < u.rank < y.rank < Hi(ctx)
    requires Linked(v, l, u, Lo(ctx), u.rank) && Linked(v, r, q, y.rank, Hi(ctx))
    requires ReplacedLinks(v, v', ctx, u, l, r, y, c)
    ensures Focus(v', ctx, Branch(l, y, c, r))
  {
    assert l.Branch? ==> Lo(ctx) < l.node.rank < u.rank;
    assert r.Branch? ==> y.rank < r.node.rank < Hi(ctx);
    assert ctx.Frame? ==> ctx.node.rank <= Lo(ctx) || ctx.node.rank >= Hi(ctx);
    ShapeReplaced(v, v', Parent(v.nil, ctx), u, l, r, q, y, c, Lo(ctx), Hi(ctx));
    CtxRehung(v, v', ctx, u, y);
  }

  /** A context made of left turns only: its hole holds the least nodes of the subtree it spans. */
  ghost predicate AllLeft(ctx: Context) {
    ctx.Frame? ==> ctx.side.Left? && AllLeft(ctx.up)
  }

  ghost predicate AllRight(ctx: Context) {
    ctx.Frame? ==> ctx.side.Right? && AllRight(ctx.up)
  }

  lemma {:induction false} RightOfLeastHole(v: View, inner: Context, outer: Context, t: Shape, lo: real)
    requires AllLeft(inner) && CtxLinked(v, Append(inner, outer), Root(v.nil, t))
    requires Linked(v, t, Parent(v.nil, Append(inner, outer)), lo, Hi(Append(inner, outer)))
    requires lo < Hi(Append(inner, outer))
    ensures Linked(v, Plug(inner, t), Parent(v.nil, outer), lo, Hi(outer))
  {
    if inner.Frame? {
      RightOfLeastHole(v, inner.up, outer, Branch(t, inner.node, inner.color, inner.sibling), lo);
    }
  }

  /** On the way to replacing the root of `s` by its successor `y`: `y` is out of its old place and heads `r`,
      what remains of the right subtree; the left subtree and the surroundings still belong to the old root. */
  ghost predicate Lifted(v: View, ctx: Context, s: Shape, r: Shape, y: Node) {
    && s.Branch? && s.node in v.cells && y in v.cells
    && v.nil.rank == 0.0 && 0.0 <= Lo(ctx) < s.node.rank < y.rank < Hi(ctx) <= 1.0
    && CtxLinked(v, ctx, s.node)
    && Linked(v, s.left, s.node, Lo(ctx), s.node.rank) && Linked(v, r, y, y.rank, Hi(ctx))
    && v.cells[s.node].color == s.color && v.cells[s.node].parent == Parent(v.nil, ctx)
    && v.cells[s.node].left == Root(v.nil, s.left)
    && v.cells[y].right == Root(v.nil, r)
  }

  /** The successor is the right child itself. */
  lemma LiftedDirect(v: View, v': View, ctx: Context, s: Shape)
    requires Focus(v, ctx, s) && s.Branch? && s.right.Branch? && s.right.left.Nil?
    requires v' == v
    ensures Lifted(v', ctx, s, s.right.right, s.right.node)
  {
    assert Linked(v, s.right, s.node, s.node.rank, Hi(ctx));
  }

  /** The node `u` still heads its subtree, whose right part is now `r`, all of it right of `lo`. */
  ghost predicate Headed(v: View, ctx: Context, s: Shape, r: Shape, lo: real) {
    && s.Branch? && v.nil.rank == 0.0 && 0.0 <= Lo(ctx) < s.node.rank < Hi(ctx) <= 1.0
    && CtxLinked(v, ctx, s.node)
    && s.node in v.cells && v.cells[s.node] == Cell(s.color, Parent(v.nil, ctx), Root(v.nil, s.left), Root(v.nil, r))
    && Linked(v, s.left, s.node, Lo(ctx), s.node.rank) && Linked(v, r, s.node, lo, Hi(ctx))
  }

  /** The leftmost hole of the right subtree, seen from the subtree's root. */
  lemma Extracted(v: View, inner: Context, ctx: Context, s: Shape, t: Shape, lo: real)
    requires s.Branch? && AllLeft(inner)
    requires var c := Append(inner, Frame(Right, s.node, s.color, s.left, ctx));
             Focus(v, c, t) && Linked(v, t, Parent(v.nil, c), lo, Hi(c)) && lo < Hi(c)
    ensures Headed(v, ctx, s, Plug(inner, t), lo)
  {
    var outer := Frame(Right, s.node, s.color, s.left, ctx);
    Refocus(v, inner, outer, t);
    RightOfLeastHole(v, inner, outer, t, lo);
    assert CtxLinked(v, outer, Root(v.nil, Plug(inner, t)));
  }

  /** The successor lies deeper: transplanted out of its place, it is given the right subtree. */
  lemma LiftedDeep(v: View, v': View, ctx: Context, s: Shape, r: Shape, y: Node)
    requires Headed(v, ctx, s, r, y.rank) && s.node.rank < y.rank < Hi(ctx)
    requires v'.nil == v.nil && v'.root == v.root && v'.cells.Keys == v.cells.Keys && y in v.cells
    requires v'.cells[y].right == Root(v.nil, r)
    requires r.Branch? ==> r.node in v.cells && v'.cells[r.node] == v.cells[r.node].(parent := y)
    requires forall n :: n in v.cells && n != y && (r.Branch? ==> n != r.node) ==> v'.cells[n] == v.cells[n]
    ensures Lifted(v', ctx, s, r, y)
  {
    assert r.Branch? ==> y.rank < r.node.rank < Hi(ctx);
    Reparented(v, v', r, s.node, y, y.rank, Hi(ctx));
    LinkedFrame(v, v', s.left, s.node, Lo(ctx), s.node.rank);
    CtxLinkedFrame(v, v', ctx, s.node);
  }

  /** What the pointers around a lifted successor read. */
  lemma LiftedPointers(v: View, ctx: Context, s: Shape, r: Shape, y: Node)
    requires Lifted(v, ctx, s, r, y)
    ensures s.node != y &&
            (s.left.Branch? ==>
              s.left.node in v.cells && s.left.node != y && s.left.node != s.node && s.left.node != v.nil)
    ensures r.Branch? ==> r.node in v.cells && v.cells[r.node].parent == y && r.node != s.node && r.node != y
    ensures r.Branch? ==> (s.left.Branch? ==> r.node != s.left.node)
    ensures ctx.Frame? ==>
              && ctx.node in v.cells && ctx.node != s.node && ctx.node != y
              && (s.left.Branch? ==> ctx.node != s.left.node) && (r.Branch? ==> ctx.node != r.node)
              && (if ctx.side.Left? then v.cells[ctx.node].left == s.node
                  else v.cells[ctx.node].right == s.node && v.cells[ctx.node].left != s.node)
  {
    assert ctx.Frame? ==> ctx.node.rank <= Lo(ctx) || ctx.node.rank >= Hi(ctx);
    assert ctx.Frame? && ctx.side.Right? && ctx.sibling.Branch? ==> ctx.sibling.node.rank < ctx.node.rank;
  }

  lemma {:induction false} PlugFrame(ctx: Context, s: Shape)
    requires ctx.Frame?
    ensures Plug(ctx, s).Branch?
  {
    if ctx.up.Frame? { PlugFrame(ctx.up, Join(ctx.side, s, ctx.node, ctx.color, ctx.sibling)); }
  }

  /** The nodes left when the successor has moved into the place of the root of `s`. */
  lemma SuccessorNodes(v: View, inner: Context, t: Shape, ctx: Context, s: Shape)
    requires Whole(v, ctx, s) && s.Branch? && Plug(inner, t) == s.right && t.Branch? && t.left.Nil?
    ensures All(Append(inner, Frame(Right, t.node, s.color, s.left, ctx)), t.right) == v.cells.Keys - {s.node}
  {
    var frame := Frame(Right, t.node, s.color, s.left, ctx);
    NodesInside(v, s.right, s.node, s.node.rank, Hi(ctx));
    NodesInside(v, s.left, s.node, Lo(ctx), s.node.rank);
    NodesOutside(v, ctx, s.node);
    AppendNodes(inner, frame);
    PlugNodes(inner, t);
    WithoutOne(CtxNodes(inner), Nodes(t.right), Nodes(s.left), CtxNodes(ctx), s.node, t.node);
  }

  lemma WithoutOne(a: set<Node>, b: set<Node>, c: set<Node>, d: set<Node>, m: Node, n: Node)
    requires m !in a + b + c + d && m != n
    ensures a + ({n} + c + d) + b == d + (c + {m} + (a + ({n} + b))) - {m}
  {
  }
}
