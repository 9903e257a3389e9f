/** Finding keys and neighbours in a tree whose nodes stand in key order. */
module TreeSearch {
  import opened TreeShape

  predicate Incomparable(lt: (Key, Key) -> bool, x: Key, y: Key) {
    !lt(x, y) && !lt(y, x)
  }

  /** What the tree asks of its comparison. */
  ghost predicate StrictWeakOrder(lt: (Key, Key) -> bool) {
    && (forall x :: !lt(x, x))
    && (forall x, y, z :: lt(x, y) && lt(y, z) ==> lt(x, z))
    && (forall x, y, z :: Incomparable(lt, x, y) && Incomparable(lt, y, z) ==> Incomparable(lt, x, z))
  }

  /** Comparing by any number that the keys have is such a comparison, however many keys share a number. */
  lemma NumbersCompare(number: Key -> int)
    ensures StrictWeakOrder((x, y) => number(x) < number(y))
  {
  }

  /** Keys that cannot be told apart are in an equivalence, and compare alike with every other key. */
  lemma EquivalentsCompareAlike(lt: (Key, Key) -> bool, x: Key, y: Key, z: Key)
    requires StrictWeakOrder(lt) && Incomparable(lt, x, y)
    ensures Incomparable(lt, x, x) && Incomparable(lt, y, x) && (Incomparable(lt, y, z) ==> Incomparable(lt, x, z))
    ensures (lt(x, z) <==> lt(y, z)) && (lt(z, x) <==> lt(z, y))
  {
    assert Incomparable(lt, y, x);
    assert Incomparable(lt, x, z) ==> Incomparable(lt, y, z);
    assert Incomparable(lt, y, z) ==> Incomparable(lt, x, z);
  }

  /** Rank order is key order. */
  ghost predicate Ordered(lt: (Key, Key) -> bool, ns: set<Node>) {
    forall m, n {:trigger lt(m.data, n.data)} :: m in ns && n in ns && m.rank < n.rank ==> lt(m.data, n.data)
  }

  /** Every node below a hole's interval is less than `key`, and every node above it greater. */
  ghost predicate Separates(lt: (Key, Key) -> bool, ns: set<Node>, ctx: Context, key: Key) {
    forall m :: m in ns ==> (m.rank <= Lo(ctx) ==> lt(m.data, key)) && (m.rank >= Hi(ctx) ==> lt(key, m.data))
  }

  ghost predicate Ready(v: View, lt: (Key, Key) -> bool) {
    && StrictWeakOrder(lt) && Ordered(lt, v.cells.Keys)
    && forall m, n :: m in v.cells && n in v.cells && m.rank == n.rank ==> m == n
  }

  lemma IsReady(v: View, lt: (Key, Key) -> bool, ctx: Context, s: Shape)
    requires Whole(v, ctx, s) && StrictWeakOrder(lt) && Ordered(lt, v.cells.Keys)
    ensures Ready(v, lt)
  {
    WholeTop(v, ctx, s);
    var t := Plug(ctx, s);
    forall m, n | m in v.cells && n in v.cells && m.rank == n.rank
      ensures m == n
    {
      RankInjective(v, t, v.nil, 0.0, 1.0, m, n);
    }
  }

  /** The pointers at the focus. */
  lemma Descend(v: View, side: Side, ctx: Context, s: Shape)
    requires Whole(v, ctx, s) && s.Branch?
    ensures Whole(v, Into(side, ctx, s), Child(side, s))
    ensures Plug(Into(side, ctx, s), Child(side, s)) == Plug(ctx, s)
    ensures s.node in v.cells && s.node != v.nil
    ensures v.cells[s.node] == Cell(s.color, Parent(v.nil, ctx), Root(v.nil, s.left), Root(v.nil, s.right))
  {
    WholeUp(v, Into(side, ctx, s), Child(side, s));
  }

  /** The state of a descent from the root that looks for `key`, at the node `n`. */
  ghost predicate Searching(v: View, lt: (Key, Key) -> bool, ctx: Context, s: Shape, key: Key, n: Node) {
    Whole(v, ctx, s) && Separates(lt, v.cells.Keys, ctx, key) && n == Root(v.nil, s)
  }

  lemma SearchStarts(v: View, lt: (Key, Key) -> bool, s: Shape, key: Key)
    requires Whole(v, Top, s)
    ensures Searching(v, lt, Top, s, key, v.root)
  {
    NodesInside(v, s, v.nil, 0.0, 1.0);
  }

  lemma SearchDescends(v: View, lt: (Key, Key) -> bool, ctx: Context, s: Shape, key: Key, n: Node)
    requires Ready(v, lt) && Searching(v, lt, ctx, s, key, n) && n != v.nil
    ensures s.Branch? && s.node == n && n in v.cells && v.cells[n].left != null && v.cells[n].right != null
    ensures Plug(Into(Left, ctx, s), s.left) == Plug(ctx, s) == Plug(Into(Right, ctx, s), s.right)
    ensures lt(key, n.data) ==> Searching(v, lt, Into(Left, ctx, s), s.left, key, v.cells[n].left)
    ensures lt(n.data, key) ==> Searching(v, lt, Into(Right, ctx, s), s.right, key, v.cells[n].right)
  {
    Descend(v, Left, ctx, s);
    Descend(v, Right, ctx, s);
    forall m | m in v.cells
      ensures m.rank <= n.rank && lt(n.data, key) ==> lt(m.data, key)
      ensures m.rank >= n.rank && lt(key, n.data) ==> lt(key, m.data)
    {
      assert m.rank < n.rank ==> lt(m.data, n.data);
      assert n.rank < m.rank ==> lt(n.data, m.data);
    }
  }

  /** A search that ends in an empty hole has passed every node. */
  lemma SearchFails(v: View, lt: (Key, Key) -> bool, ctx: Context, s: Shape, key: Key)
    requires StrictWeakOrder(lt) && Searching(v, lt, ctx, s, key, v.nil)
    ensures s.Nil?
    ensures forall m :: m in v.cells ==> m.rank <= Lo(ctx) || m.rank >= Hi(ctx)
    ensures forall m :: m in v.cells ==> !Incomparable(lt, m.data, key)
  {
    if s.Branch? { assert false; }
    NodesOutside(v, ctx, v.nil);
  }

  /** A search that remembers the last node passed, and on which side of it the walk went on. */
  ghost predicate Placing(v: View, lt: (Key, Key) -> bool, whole: Shape, ctx: Context, s: Shape,
      key: Key, n: Node, parent: Node) {
    && Searching(v, lt, ctx, s, key, n) && Plug(ctx, s) == whole && parent == Parent(v.nil, ctx)
    && (ctx.Frame? ==> parent != v.nil && (ctx.side.Left? <==> lt(key, parent.data)))
  }

  lemma PlacingDescends(v: View,
      lt: (Key, Key) -> bool, whole: Shape, ctx: Context, s: Shape, key: Key, n: Node, parent: Node)
    requires Ready(v, lt) && Placing(v, lt, whole, ctx, s, key, n, parent) && n != v.nil
    ensures s.Branch? && n in v.cells && v.cells[n].left != null && v.cells[n].right != null
    ensures lt(key, n.data) ==> Placing(v, lt, whole, Into(Left, ctx, s), s.left, key, v.cells[n].left, n)
    ensures lt(n.data, key) ==> Placing(v, lt, whole, Into(Right, ctx, s), s.right, key, v.cells[n].right, n)
  {
    SearchDescends(v, lt, ctx, s, key, n);
    assert lt(n.data, key) ==> !lt(key, n.data) by { Asymmetric(lt, key, n.data); }
  }

  lemma Asymmetric(lt: (Key, Key) -> bool, x: Key, y: Key)
    requires StrictWeakOrder(lt)
    ensures !(lt(x, y) && lt(y, x))
  {
    assert lt(x, y) && lt(y, x) ==> lt(x, x);
  }

  lemma PlacingEnds(v: View, lt: (Key, Key) -> bool, whole: Shape, ctx: Context, s: Shape, key: Key, parent: Node)
    requires Placing(v, lt, whole, ctx, s, key, v.nil, parent)
    ensures s == Nil
  {
    RootIsNil(v, ctx, s);
  }

  lemma OneMore(ns: set<Node>, n: Node)
    requires n !in ns
    ensures |ns + {n}| == |ns| + 1
  {
  }

  lemma OneLess(ns: set<Node>, n: Node)
    requires n in ns
    ensures |ns - {n}| == |ns| - 1
  {
  }

  /** A new node between the bounds of an empty hole keeps the nodes in key order. */
  lemma OrderedWith(v: View, lt: (Key, Key) -> bool, ctx: Context, n: Node)
    requires StrictWeakOrder(lt) && Ordered(lt, v.cells.Keys) && Searching(v, lt, ctx, Nil, n.data, v.nil)
    requires n !in v.cells && Lo(ctx) < n.rank < Hi(ctx)
    ensures Ordered(lt, v.cells.Keys + {n})
  {
    SearchFails(v, lt, ctx, Nil, n.data);
  }

  // ----- bounds and neighbours

  /** `left` is a lower part of the nodes. */
  ghost predicate IsCut(ns: set<Node>, left: set<Node>) {
    left <= ns && forall m, n :: m in ns && n in left && m.rank <= n.rank ==> m in left
  }

  /** `r` is the first node after `left`, or the sentinel when there is none. */
  ghost predicate FirstAfter(v: View, left: set<Node>, r: Node) {
    if r == v.nil then
      forall m :: m in v.cells ==> m in left
    else
      r in v.cells && r !in left && forall m :: m in v.cells && m.rank < r.rank ==> m in left
  }

  /** `r` is the last node of `left`, or the sentinel when there is none. */
  ghost predicate LastOf(v: View, left: set<Node>, r: Node) {
    if r == v.nil then
      left == {}
    else
      r in v.cells && r in left && forall m :: m in v.cells && m.rank > r.rank ==> m !in left
  }

  /** Looking for the border of `left`: it lies within the interval of the hole. */
  ghost predicate BorderWithin(v: View, left: set<Node>, ctx: Context, s: Shape) {
    && Whole(v, ctx, s)
    && forall m :: m in v.cells ==> (m.rank <= Lo(ctx) ==> m in left) && (m.rank >= Hi(ctx) ==> m !in left)
  }

  /** `r` is the node that ends the interval of the hole above; the sentinel when the interval is open. */
  ghost predicate EndsAt(v: View, ctx: Context, r: Node) {
    if r == v.nil then Hi(ctx) == 1.0 else r in v.cells && r.rank == Hi(ctx)
  }

  lemma BorderStarts(v: View, left: set<Node>, s: Shape)
    requires Whole(v, Top, s)
    ensures BorderWithin(v, left, Top, s) && EndsAt(v, Top, v.nil)
  {
    NodesInside(v, s, v.nil, 0.0, 1.0);
  }

  lemma BorderDescends(v: View, left: set<Node>, ctx: Context, s: Shape)
    requires IsCut(v.cells.Keys, left) && BorderWithin(v, left, ctx, s) && s.Branch?
    ensures s.node in v.cells && s.node != v.nil
    ensures v.cells[s.node].left == Root(v.nil, s.left) && v.cells[s.node].right == Root(v.nil, s.right)
    ensures s.node in left ==> BorderWithin(v, left, Into(Right, ctx, s), s.right)
    ensures s.node !in left ==>
              BorderWithin(v, left, Into(Left, ctx, s), s.left) && EndsAt(v, Into(Left, ctx, s), s.node)
  {
    Descend(v, Left, ctx, s);
    Descend(v, Right, ctx, s);
  }

  lemma RootIsNil(v: View, ctx: Context, s: Shape)
    requires Whole(v, ctx, s)
    ensures Root(v.nil, s) == v.nil <==> s.Nil?
  {
    if s.Branch? {
      NodesInside(v, s, Parent(v.nil, ctx), Lo(ctx), Hi(ctx));
    }
  }

  /** Below a frame, the root link leads to a node outside the subtree. */
  lemma {:induction false} RootIsOutside(v: View, ctx: Context, hole: Node)
    requires CtxLinked(v, ctx, hole) && ctx.Frame? && 0.0 <= Lo(ctx) < Hi(ctx) <= 1.0
    ensures v.root in CtxNodes(ctx) && 0.0 < v.root.rank && (v.root.rank <= Lo(ctx) || v.root.rank >= Hi(ctx))
  {
    NodesOutside(v, ctx, hole);
    if ctx.up.Frame? { RootIsOutside(v, ctx.up, ctx.node); }
  }

  lemma BorderFound(v: View, left: set<Node>, ctx: Context, s: Shape)
    requires BorderWithin(v, left, ctx, s) && Root(v.nil, s) == v.nil
    ensures forall r :: EndsAt(v, ctx, r) ==> FirstAfter(v, left, r)
    ensures ctx.Frame? && ctx.side.Left? ==> FirstAfter(v, left, ctx.node)
    ensures ctx.Frame? && ctx.side.Right? ==> LastOf(v, left, ctx.node)
  {
    RootIsNil(v, ctx, s);
    NodesOutside(v, ctx, v.nil);
  }

  /** The nodes up to the focused one end where its right subtree begins, those before it where its left one ends. */
  lemma SubtreeBorders(v: View, ctx: Context, s: Shape)
    requires Whole(v, ctx, s) && s.Branch?
    ensures s.node in v.cells && s.node != v.nil
    ensures v.cells[s.node] == Cell(s.color, Parent(v.nil, ctx), Root(v.nil, s.left), Root(v.nil, s.right))
    ensures IsCut(v.cells.Keys, UpTo(v.cells.Keys, s.node)) && IsCut(v.cells.Keys, Before(v.cells.Keys, s.node))
    ensures BorderWithin(v, UpTo(v.cells.Keys, s.node), Into(Right, ctx, s), s.right)
    ensures BorderWithin(v, Before(v.cells.Keys, s.node), Into(Left, ctx, s), s.left)
    ensures s.right.Nil? ==> Climbing(v, UpTo(v.cells.Keys, s.node), ctx, s, s.node)
    ensures s.left.Nil? ==> ClimbingBack(v, Before(v.cells.Keys, s.node), ctx, s, s.node)
  {
    Descend(v, Left, ctx, s);
    Descend(v, Right, ctx, s);
    if s.right.Nil? { NodesOutside(v, Into(Right, ctx, s), v.nil); }
    if s.left.Nil? { NodesOutside(v, Into(Left, ctx, s), v.nil); }
  }

  lemma RightChildIsGreater(v: View, lt: (Key, Key) -> bool, ctx: Context, s: Shape)
    requires Ready(v, lt) && Whole(v, ctx, s) && s.Branch? && s.right.Branch?
    ensures s.right.node.data != s.node.data
  {
    Descend(v, Right, ctx, s);
    Descend(v, Right, Into(Right, ctx, s), s.right);
    assert lt(s.node.data, s.right.node.data);
  }

  lemma {:induction false} LoOfAllLeft(inner: Context, outer: Context)
    requires AllLeft(inner)
    ensures Lo(Append(inner, outer)) == Lo(outer)
  {
    if inner.Frame? { LoOfAllLeft(inner.up, outer); }
  }

  /** Nothing lies between the lower bound of a subtree's place and its leftmost node. */
  lemma LeftmostIsFirst(v: View, inner: Context, outer: Context, t: Shape)
    requires AllLeft(inner) && Whole(v, Append(inner, outer), t) && t.Branch? && t.left.Nil?
    ensures t.node in v.cells && t.node != v.nil && Lo(outer) < t.node.rank
    ensures forall m :: m in v.cells ==> m.rank <= Lo(outer) || m.rank >= t.node.rank
  {
    var ctx := Append(inner, outer);
    LoOfAllLeft(inner, outer);
    Descend(v, Left, ctx, t);
    NodesOutside(v, Into(Left, ctx, t), v.nil);
  }

  lemma LeftmostIsLeast(v: View, lt: (Key, Key) -> bool, inner: Context, t: Shape)
    requires Ready(v, lt) && AllLeft(inner) && Whole(v, Append(inner, Top), t) && t.Branch? && t.left.Nil?
    ensures IsLeast(lt, v.cells.Keys, v.nil, t.node)
  {
    LeftmostIsFirst(v, inner, Top, t);
    WholeTop(v, Append(inner, Top), t);
    NodesInside(v, Plug(Append(inner, Top), t), v.nil, 0.0, 1.0);
  }

  lemma LeftmostIsNext(v: View, lt: (Key, Key) -> bool, inner: Context, ctx: Context, s: Shape, t: Shape)
    requires Ready(v, lt) && s.Branch? && s.node in v.cells
    requires AllLeft(inner) && Whole(v, Append(inner, Into(Right, ctx, s)), t) && t.Branch? && t.left.Nil?
    ensures IsNext(lt, v.cells.Keys, v.nil, s.node, t.node)
  {
    LeftmostIsFirst(v, inner, Into(Right, ctx, s), t);
    FirstAfterUpToIsNext(v, lt, s.node, t.node);
  }

  lemma {:induction false} HiOfAllRight(inner: Context, outer: Context)
    requires AllRight(inner)
    ensures Hi(Append(inner, outer)) == Hi(outer)
  {
    if inner.Frame? { HiOfAllRight(inner.up, outer); }
  }

  /** Nothing lies between the upper bound of a subtree's place and its rightmost node. */
  lemma RightmostIsLast(v: View, inner: Context, outer: Context, t: Shape)
    requires AllRight(inner) && Whole(v, Append(inner, outer), t) && t.Branch? && t.right.Nil?
    ensures t.node in v.cells && t.node != v.nil && t.node.rank < Hi(outer)
    ensures forall m :: m in v.cells ==> m.rank >= Hi(outer) || m.rank <= t.node.rank
  {
    var ctx := Append(inner, outer);
    HiOfAllRight(inner, outer);
    Descend(v, Right, ctx, t);
    NodesOutside(v, Into(Right, ctx, t), v.nil);
  }

  lemma RightmostIsPrevious(v: View, lt: (Key, Key) -> bool, inner: Context, ctx: Context, s: Shape, t: Shape)
    requires Ready(v, lt) && s.Branch? && s.node in v.cells
    requires AllRight(inner) && Whole(v, Append(inner, Into(Left, ctx, s)), t) && t.Branch? && t.right.Nil?
    ensures IsPrevious(lt, v.cells.Keys, v.nil, s.node, t.node)
  {
    RightmostIsLast(v, inner, Into(Left, ctx, s), t);
    LastOfBeforeIsPrevious(v, lt, s.node, t.node);
  }

  /** What a step to the left child finds. */
  lemma LeftChild(v: View, ctx: Context, s: Shape)
    requires Whole(v, ctx, s) && s.Branch?
    ensures s.node in v.cells && v.cells[s.node].left == Root(v.nil, s.left)
    ensures (v.cells[s.node].left == v.nil <==> s.left.Nil?)
    ensures Whole(v, Into(Left, ctx, s), s.left)
    ensures s.left.Branch? ==>
              && s.left.node in v.cells && v.cells[s.left.node].left == Root(v.nil, s.left.left)
              && (v.cells[s.left.node].left == v.nil <==> s.left.left.Nil?)
  {
    Descend(v, Left, ctx, s);
    RootIsNil(v, Into(Left, ctx, s), s.left);
    if s.left.Branch? {
      Descend(v, Left, Into(Left, ctx, s), s.left);
      RootIsNil(v, Into(Left, Into(Left, ctx, s), s.left), s.left.left);
    }
  }

  /** What a step to the right child finds. */
  lemma RightChild(v: View, ctx: Context, s: Shape)
    requires Whole(v, ctx, s) && s.Branch?
    ensures s.node in v.cells && v.cells[s.node].right == Root(v.nil, s.right)
    ensures (v.cells[s.node].right == v.nil <==> s.right.Nil?)
    ensures Whole(v, Into(Right, ctx, s), s.right)
    ensures s.right.Branch? ==>
              && s.right.node in v.cells && v.cells[s.right.node].right == Root(v.nil, s.right.right)
              && (v.cells[s.right.node].right == v.nil <==> s.right.right.Nil?)
  {
    Descend(v, Right, ctx, s);
    RootIsNil(v, Into(Right, ctx, s), s.right);
    if s.right.Branch? {
      Descend(v, Right, Into(Right, ctx, s), s.right);
      RootIsNil(v, Into(Right, Into(Right, ctx, s), s.right), s.right.right);
    }
  }

  /** Walking up from a node whose right subtree is done: `left` is all that precedes the hole's interval's end. */
  ghost predicate Climbing(v: View, left: set<Node>, ctx: Context, s: Shape, n: Node) {
    && Whole(v, ctx, s) && s.Branch? && s.node == n
    && forall m :: m in v.cells ==> (m in left <==> m.rank < Hi(ctx))
  }

  lemma Climb(v: View, left: set<Node>, ctx: Context, s: Shape, n: Node)
    requires Climbing(v, left, ctx, s, n)
    ensures n in v.cells && v.cells[n].parent == Parent(v.nil, ctx)
    ensures ctx.Top? ==> FirstAfter(v, left, v.nil)
    ensures ctx.Frame? ==>
              ctx.node in v.cells && ctx.node != v.nil && (v.cells[ctx.node].right == n <==> ctx.side.Right?)
    ensures ctx.Frame? && ctx.side.Right? ==>
              Climbing(v, left, ctx.up, Join(Right, s, ctx.node, ctx.color, ctx.sibling), ctx.node)
    ensures ctx.Frame? && ctx.side.Left? ==> FirstAfter(v, left, ctx.node)
  {
    NodesInside(v, s, Parent(v.nil, ctx), Lo(ctx), Hi(ctx));
    NodesOutside(v, ctx, n);
    if ctx.Frame? {
      WholeUp(v, ctx, s);
    }
  }

  /** Walking up from a node whose left subtree is done. */
  ghost predicate ClimbingBack(v: View, left: set<Node>, ctx: Context, s: Shape, n: Node) {
    && Whole(v, ctx, s) && s.Branch? && s.node == n && left <= v.cells.Keys
    && forall m :: m in v.cells ==> (m in left <==> m.rank <= Lo(ctx))
  }

  lemma ClimbBack(v: View, left: set<Node>, ctx: Context, s: Shape, n: Node)
    requires ClimbingBack(v, left, ctx, s, n)
    ensures n in v.cells && v.cells[n].parent == Parent(v.nil, ctx)
    ensures ctx.Top? ==> LastOf(v, left, v.nil)
    ensures ctx.Frame? ==> ctx.node in v.cells && ctx.node != v.nil && (v.cells[ctx.node].left == n <==> ctx.side.Left?)
    ensures ctx.Frame? && ctx.side.Left? ==>
              ClimbingBack(v, left, ctx.up, Join(Left, s, ctx.node, ctx.color, ctx.sibling), ctx.node)
    ensures ctx.Frame? && ctx.side.Right? ==> LastOf(v, left, ctx.node)
  {
    NodesInside(v, s, Parent(v.nil, ctx), Lo(ctx), Hi(ctx));
    NodesOutside(v, ctx, n);
    if ctx.Frame? {
      WholeUp(v, ctx, s);
    }
  }

  // ----- the same, by keys

  /** `r` is the least node whose key is not less than `key`; the sentinel when there is none. */
  ghost predicate IsLowerBound(lt: (Key, Key) -> bool, ns: set<Node>, nil: Node, key: Key, r: Node) {
    if r == nil then
      forall m :: m in ns ==> lt(m.data, key)
    else
      r in ns && !lt(r.data, key) && forall m :: m in ns && lt(m.data, r.data) ==> lt(m.data, key)
  }

  /** `r` is the least node whose key is greater than `key`; the sentinel when there is none. */
  ghost predicate IsUpperBound(lt: (Key, Key) -> bool, ns: set<Node>, nil: Node, key: Key, r: Node) {
    if r == nil then
      forall m :: m in ns ==> !lt(key, m.data)
    else
      r in ns && lt(key, r.data) && forall m :: m in ns && lt(m.data, r.data) ==> !lt(key, m.data)
  }

  /** `r` is the in-order successor of `n`; the sentinel when `n` is the greatest. */
  ghost predicate IsNext(lt: (Key, Key) -> bool, ns: set<Node>, nil: Node, n: Node, r: Node) {
    if r == nil then
      forall m :: m in ns ==> !lt(n.data, m.data)
    else
      r in ns && lt(n.data, r.data) && forall m :: m in ns && lt(n.data, m.data) ==> m == r || lt(r.data, m.data)
  }

  /** `r` is the in-order predecessor of `n`; the sentinel when `n` is the least. */
  ghost predicate IsPrevious(lt: (Key, Key) -> bool, ns: set<Node>, nil: Node, n: Node, r: Node) {
    if r == nil then
      forall m :: m in ns ==> !lt(m.data, n.data)
    else
      r in ns && lt(r.data, n.data) && forall m :: m in ns && lt(m.data, n.data) ==> m == r || lt(m.data, r.data)
  }

  ghost predicate IsLeast(lt: (Key, Key) -> bool, ns: set<Node>, nil: Node, r: Node) {
    if r == nil then ns == {} else r in ns && forall m :: m in ns ==> m == r || lt(r.data, m.data)
  }

  ghost function LessThan(lt: (Key, Key) -> bool, ns: set<Node>, key: Key): set<Node> {
    set m | m in ns && lt(m.data, key)
  }

  ghost function NotGreaterThan(lt: (Key, Key) -> bool, ns: set<Node>, key: Key): set<Node> {
    set m | m in ns && !lt(key, m.data)
  }

  ghost function UpTo(ns: set<Node>, n: Node): set<Node> {
    set m | m in ns && m.rank <= n.rank
  }

  ghost function Before(ns: set<Node>, n: Node): set<Node> {
    set m | m in ns && m.rank < n.rank
  }

  /** Key order and rank order are the same. */
  lemma RankIsOrder(v: View, lt: (Key, Key) -> bool, m: Node, n: Node)
    requires Ready(v, lt) && m in v.cells && n in v.cells
    ensures lt(m.data, n.data) <==> m.rank < n.rank
  {
    Asymmetric(lt, m.data, n.data);
    assert n.rank < m.rank ==> lt(n.data, m.data);
  }

  lemma LessThanIsCut(v: View, lt: (Key, Key) -> bool, key: Key)
    requires Ready(v, lt)
    ensures IsCut(v.cells.Keys, LessThan(lt, v.cells.Keys, key))
    ensures forall r :: FirstAfter(v, LessThan(lt, v.cells.Keys, key), r) ==>
              IsLowerBound(lt, v.cells.Keys, v.nil, key, r)
  {
    forall r | FirstAfter(v, LessThan(lt, v.cells.Keys, key), r)
      ensures IsLowerBound(lt, v.cells.Keys, v.nil, key, r)
    {
      if r != v.nil {
        forall m | m in v.cells && lt(m.data, r.data)
          ensures lt(m.data, key)
        {
          RankIsOrder(v, lt, m, r);
        }
      }
    }
  }

  lemma NotGreaterThanIsCut(v: View, lt: (Key, Key) -> bool, key: Key)
    requires Ready(v, lt)
    ensures IsCut(v.cells.Keys, NotGreaterThan(lt, v.cells.Keys, key))
    ensures forall r :: FirstAfter(v, NotGreaterThan(lt, v.cells.Keys, key), r) ==>
              IsUpperBound(lt, v.cells.Keys, v.nil, key, r)
  {
    assert forall m, n :: m in v.cells && n in v.cells && m.rank < n.rank && lt(key, m.data) ==> lt(m.data, n.data);
    forall r | FirstAfter(v, NotGreaterThan(lt, v.cells.Keys, key), r)
      ensures IsUpperBound(lt, v.cells.Keys, v.nil, key, r)
    {
      if r != v.nil {
        forall m | m in v.cells && lt(m.data, r.data)
          ensures !lt(key, m.data)
        {
          RankIsOrder(v, lt, m, r);
        }
      }
    }
  }

  lemma FirstAfterUpToIsNext(v: View, lt: (Key, Key) -> bool, n: Node, r: Node)
    requires Ready(v, lt) && n in v.cells && FirstAfter(v, UpTo(v.cells.Keys, n), r)
    ensures IsNext(lt, v.cells.Keys, v.nil, n, r)
  {
    forall m | m in v.cells
      ensures lt(n.data, m.data) <==> n.rank < m.rank
    {
      RankIsOrder(v, lt, n, m);
    }
  }

  lemma LastOfBeforeIsPrevious(v: View, lt: (Key, Key) -> bool, n: Node, r: Node)
    requires Ready(v, lt) && n in v.cells && LastOf(v, Before(v.cells.Keys, n), r)
    ensures IsPrevious(lt, v.cells.Keys, v.nil, n, r)
  {
    forall m | m in v.cells
      ensures lt(m.data, n.data) <==> m.rank < n.rank
    {
      RankIsOrder(v, lt, m, n);
    }
    if r == v.nil {
      forall m | m in v.cells
        ensures m !in Before(v.cells.Keys, n)
      {
      }
    }
  }

  /** Stepping back undoes stepping forward, and the other way round. */
  lemma PreviousUndoesNext(v: View, lt: (Key, Key) -> bool, m: Node, n: Node)
    requires Ready(v, lt) && m in v.cells && n in v.cells && v.nil !in v.cells
    ensures IsNext(lt, v.cells.Keys, v.nil, m, n) <==> IsPrevious(lt, v.cells.Keys, v.nil, n, m)
  {
    forall x, y | x in v.cells && y in v.cells
      ensures x == y || lt(x.data, y.data) || lt(y.data, x.data)
    {
      RankIsOrder(v, lt, x, y);
      RankIsOrder(v, lt, y, x);
    }
  }

  /** What lies between the two bounds of a key. */
  lemma RangeIsEquivalent(v: View, lt: (Key, Key) -> bool, key: Key, first: Node, last: Node)
    requires Ready(v, lt) && v.nil !in v.cells
    requires IsLowerBound(lt, v.cells.Keys, v.nil, key, first) && IsUpperBound(lt, v.cells.Keys, v.nil, key, last)
    ensures first == last ==> forall m :: m in v.cells ==> !Incomparable(lt, m.data, key)
    ensures first != last ==> first in v.cells && IsNext(lt, v.cells.Keys, v.nil, first, last)
    ensures first != last ==> forall m :: m in v.cells ==> (Incomparable(lt, m.data, key) <==> m == first)
  {
    forall x, y | x in v.cells && y in v.cells
      ensures x == y || lt(x.data, y.data) || lt(y.data, x.data)
    {
      RankIsOrder(v, lt, x, y);
      RankIsOrder(v, lt, y, x);
    }
    if first != last {
      assert first != v.nil && Incomparable(lt, first.data, key);
      forall m | m in v.cells && lt(first.data, m.data)
        ensures lt(key, m.data)
      {
        assert Incomparable(lt, key, m.data) ==> Incomparable(lt, first.data, m.data);
      }
    }
  }

  lemma NextIsUnique(v: View, lt: (Key, Key) -> bool, n: Node, r: Node, r': Node)
    requires Ready(v, lt) && v.nil !in v.cells
    requires IsNext(lt, v.cells.Keys, v.nil, n, r) && IsNext(lt, v.cells.Keys, v.nil, n, r')
    ensures r == r'
  {
    if r in v.cells && r' in v.cells {
      RankIsOrder(v, lt, r, r');
      RankIsOrder(v, lt, r', r);
    }
  }

  lemma PreviousIsUnique(v: View, lt: (Key, Key) -> bool, n: Node, r: Node, r': Node)
    requires Ready(v, lt) && v.nil !in v.cells
    requires IsPrevious(lt, v.cells.Keys, v.nil, n, r) && IsPrevious(lt, v.cells.Keys, v.nil, n, r')
    ensures r == r'
  {
    if r in v.cells && r' in v.cells {
      RankIsOrder(v, lt, r, r');
      RankIsOrder(v, lt, r', r);
    }
  }

  /** No other node that is not less than the key comes before the lower bound. */
  lemma LowerBoundIsFirst(v: View, lt: (Key, Key) -> bool, key: Key, r: Node, m: Node)
    requires Ready(v, lt) && IsLowerBound(lt, v.cells.Keys, v.nil, key, r) && m in v.cells && !lt(m.data, key)
    ensures r != v.nil && (m == r || lt(r.data, m.data))
  {
    RankIsOrder(v, lt, m, r);
    RankIsOrder(v, lt, r, m);
  }

  /** No other node that is greater than the key comes before the upper bound. */
  lemma UpperBoundIsFirst(v: View, lt: (Key, Key) -> bool, key: Key, r: Node, m: Node)
    requires Ready(v, lt) && IsUpperBound(lt, v.cells.Keys, v.nil, key, r) && m in v.cells && lt(key, m.data)
    ensures r != v.nil && (m == r || lt(r.data, m.data))
  {
    RankIsOrder(v, lt, m, r);
    RankIsOrder(v, lt, r, m);
  }

  /** A node and what precedes it are what precedes its successor. */
  lemma NextSplits(v: View, lt: (Key, Key) -> bool, n: Node, r: Node)
    requires Ready(v, lt) && v.nil !in v.cells && n in v.cells && IsNext(lt, v.cells.Keys, v.nil, n, r)
    ensures forall m :: m in v.cells ==> ((r == v.nil || lt(m.data, r.data)) <==> m == n || lt(m.data, n.data))
  {
    forall m | m in v.cells
      ensures (r == v.nil || lt(m.data, r.data)) <==> m == n || lt(m.data, n.data)
    {
      RankIsOrder(v, lt, m, n);
      RankIsOrder(v, lt, n, m);
      if r != v.nil {
        RankIsOrder(v, lt, m, r);
        RankIsOrder(v, lt, n, r);
        RankIsOrder(v, lt, r, m);
      }
    }
  }

  lemma SubsetSize(a: set<Node>, b: set<Node>)
    requires a <= b
    ensures |a| <= |b|
    ensures |a| == |b| ==> a == b
  {
    assert b == a + (b - a);
    assert |b| == |a| + |b - a|;
    if |a| == |b| { assert b - a == {}; }
  }

  /** An iteration in progress: `nodes` are all the nodes before `next`, in key order. */
  ghost predicate Visited(v: View, lt: (Key, Key) -> bool, nodes: seq<Node>, next: Node) {
    && (forall i, j :: 0 <= i < j < |nodes| ==> lt(nodes[i].data, nodes[j].data))
    && (forall m :: m in nodes ==> m in v.cells)
    && forall m :: m in v.cells ==> (m in nodes <==> next == v.nil || lt(m.data, next.data))
  }

  lemma LeastIsFirst(v: View, lt: (Key, Key) -> bool, n: Node)
    requires Ready(v, lt) && IsLeast(lt, v.cells.Keys, v.nil, n)
    ensures Visited(v, lt, [], n)
  {
    if n != v.nil {
      forall m | m in v.cells
        ensures !lt(m.data, n.data)
      {
        RankIsOrder(v, lt, n, m);
        RankIsOrder(v, lt, m, n);
      }
    }
  }

  lemma VisitNext(v: View, lt: (Key, Key) -> bool, nodes: seq<Node>, n: Node, r: Node)
    requires Ready(v, lt) && v.nil !in v.cells && n in v.cells
    requires Visited(v, lt, nodes, n) && IsNext(lt, v.cells.Keys, v.nil, n, r)
    ensures Visited(v, lt, nodes + [n], r) && |nodes| < |v.cells.Keys|
  {
    NextSplits(v, lt, n, r);
    forall m
      ensures m in nodes + [n] <==> m in nodes || m == n
    {
    }
    VisitedSize(v, lt, nodes + [n], r);
  }

  lemma VisitedSize(v: View, lt: (Key, Key) -> bool, nodes: seq<Node>, next: Node)
    requires StrictWeakOrder(lt) && Visited(v, lt, nodes, next)
    ensures |nodes| <= |v.cells.Keys|
    ensures next == v.nil ==> |nodes| == |v.cells.Keys|
  {
    forall i, j | 0 <= i < j < |nodes|
      ensures nodes[i] != nodes[j]
    {
      assert lt(nodes[i].data, nodes[j].data);
    }
    DistinctSize(nodes);
    var seen := set m | m in nodes;
    SubsetSize(seen, v.cells.Keys);
    if next == v.nil { assert seen == v.cells.Keys; }
  }

  lemma {:induction false} DistinctSize(nodes: seq<Node>)
    requires forall i, j :: 0 <= i < j < |nodes| ==> nodes[i] != nodes[j]
    ensures |set m | m in nodes| == |nodes|
  {
    if nodes != [] {
      var k := |nodes| - 1;
      DistinctSize(nodes[..k]);
      assert (set m | m in nodes) == (set m | m in nodes[..k]) + {nodes[k]};
    }
  }
}
