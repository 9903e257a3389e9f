/** The red-black rules as a property of tree shapes, and what each repair step does to them. */
module RedBlackRules {
  import opened Powers
  import opened TreeShape

  ghost predicate IsBlack(s: Shape) {
    s.Branch? ==> s.color.Black?
  }

  ghost function ColorOf(s: Shape): Color {
    if s.Nil? then Black else s.color
  }

  /** No red node in `s` has a red child, and every path down through `s` meets `h` black nodes. */
  ghost predicate Rules(s: Shape, h: nat) {
    match s
    case Nil => h == 0
    case Branch(l, _, Red, r) => IsBlack(l) && IsBlack(r) && Rules(l, h) && Rules(r, h)
    case Branch(l, _, Black, r) => h > 0 && Rules(l, h - 1) && Rules(r, h - 1)
  }

  /** Any subtree that keeps the rules at height `h`, and whose root has color `c`, completes `ctx`
      to a whole tree that keeps the rules and has a black root. */
  ghost predicate CtxRules(ctx: Context, c: Color, h: nat) {
    match ctx
    case Top => c.Black?
    case Frame(_, _, cn, sib, up) =>
      && Rules(sib, h)
      && (cn.Red? ==> c.Black? && IsBlack(sib))
      && CtxRules(up, cn, if cn.Black? then h + 1 else h)
  }

  lemma BlackSuits(ctx: Context, c: Color, h: nat)
    requires CtxRules(ctx, c, h)
    ensures CtxRules(ctx, Black, h)
  {
  }

  lemma {:induction false} PlugRules(ctx: Context, s: Shape, h: nat) returns (total: nat)
    requires Rules(s, h) && CtxRules(ctx, ColorOf(s), h)
    ensures Rules(Plug(ctx, s), total) && IsBlack(Plug(ctx, s))
  {
    match ctx
    case Top => total := h;
    case Frame(side, n, c, sib, up) =>
      total := PlugRules(up, Join(side, s, n, c, sib), if c.Black? then h + 1 else h);
  }

  lemma {:induction false} UnplugRules(inner: Context, outer: Context, s: Shape, total: nat) returns (h: nat)
    requires Rules(Plug(inner, s), total) && CtxRules(outer, ColorOf(Plug(inner, s)), total)
    ensures Rules(s, h) && CtxRules(Append(inner, outer), ColorOf(s), h)
  {
    match inner
    case Top => h := total;
    case Frame(side, n, c, sib, up) =>
      var k := UnplugRules(up, outer, Join(side, s, n, c, sib), total);
      h := if c.Black? then k - 1 else k;
  }

  lemma {:induction false} FocusRules(ctx: Context, s: Shape) returns (h: nat)
    requires RedBlack(Plug(ctx, s))
    ensures Rules(s, h) && CtxRules(ctx, ColorOf(s), h)
  {
    var total: nat :| Rules(Plug(ctx, s), total);
    h := UnplugRules(ctx, Top, s, total);
    AppendTop(ctx);
  }

  /** Which node sits in a frame does not matter to the rules, only its color. */
  lemma {:induction false} RulesIgnoreNodes(inner: Context, side: Side, n: Node, n': Node, cn: Color, sib: Shape,
      up: Context, c: Color, h: nat)
    requires CtxRules(Append(inner, Frame(side, n, cn, sib, up)), c, h)
    ensures CtxRules(Append(inner, Frame(side, n', cn, sib, up)), c, h)
  {
    if inner.Frame? {
      RulesIgnoreNodes(inner.up, side, n, n', cn, sib, up, inner.color, if inner.color.Black? then h + 1 else h);
    }
  }

  /** A whole tree that keeps the red-black rules. */
  ghost predicate RedBlack(s: Shape) {
    IsBlack(s) && exists h: nat :: Rules(s, h)
  }

  /** How many black nodes lie above a place. */
  ghost function BlackDepth(ctx: Context): nat {
    if ctx.Top? then 0 else BlackDepth(ctx.up) + if ctx.color.Black? then 1 else 0
  }

  /** Every way down to a place meets as many black nodes as the height above it allows. */
  lemma {:induction false} RulesBelow(ctx: Context, s: Shape, total: nat)
    requires Rules(Plug(ctx, s), total)
    ensures BlackDepth(ctx) <= total && Rules(s, total - BlackDepth(ctx))
  {
    if ctx.Frame? {
      RulesBelow(ctx.up, Join(ctx.side, s, ctx.node, ctx.color, ctx.sibling), total);
    }
  }

  ghost function Blackened(s: Shape): Shape {
    if s.Nil? then Nil else s.(color := Black)
  }

  // ----- insertion

  /** A red subtree that keeps the rules fits its place except perhaps for a red parent. */
  ghost predicate RedFits(ctx: Context, s: Shape, h: nat) {
    s.Branch? && s.color.Red? && Rules(s, h) && CtxRules(ctx, Black, h)
  }

  /** Under a red parent there is always a black grandparent. */
  lemma RedParent(ctx: Context, h: nat)
    requires CtxRules(ctx, Black, h) && ctx.Frame? && ctx.color.Red?
    ensures ctx.up.Frame? && ctx.up.color.Black?
    ensures Rules(ctx.sibling, h) && IsBlack(ctx.sibling) && Rules(ctx.up.sibling, h)
    ensures CtxRules(ctx.up.up, Black, h + 1)
  {
  }

  /** A red uncle: after recoloring, the grandparent is the only red node that may be out of place. */
  lemma RecoloredFits(ctx: Context, s: Shape, h: nat)
    requires RedFits(ctx, s, h) && ctx.Frame? && ctx.color.Red?
    requires ctx.up.Frame? && ctx.up.sibling.Branch? && ctx.up.sibling.color.Red?
    ensures RedFits(ctx.up.up,
                    Join(ctx.up.side, Join(ctx.side, s, ctx.node, Black, ctx.sibling), ctx.up.node, Red,
                         Blackened(ctx.up.sibling)), h + 1)
  {
    RedParent(ctx, h);
    assert Rules(Join(ctx.side, s, ctx.node, Black, ctx.sibling), h + 1);
    assert Rules(Blackened(ctx.up.sibling), h + 1);
  }

  /** A black uncle, and `s` on the inner side: rotating the parent turns this into the outer case. */
  lemma InnerTurned(ctx: Context, s: Shape, h: nat)
    requires RedFits(ctx, s, h) && ctx.Frame? && ctx.color.Red? && ctx.up.Frame? && ctx.side == ctx.up.side.Other()
    ensures var side := ctx.up.side;
            RedFits(Frame(side, s.node, Red, Child(side.Other(), s), ctx.up),
                    Join(side, ctx.sibling, ctx.node, Red, Child(side, s)), h)
  {
  }

  /** A black uncle, and `s` on the outer side: recoloring and rotating the grandparent ends the repair. */
  lemma OuterFits(ctx: Context, s: Shape, h: nat)
    requires RedFits(ctx, s, h) && ctx.Frame? && ctx.color.Red?
    requires ctx.up.Frame? && ctx.up.side == ctx.side && IsBlack(ctx.up.sibling)
    ensures RedFits(Frame(ctx.side, ctx.node, Black,
                          Join(ctx.side, ctx.sibling, ctx.up.node, Red, ctx.up.sibling), ctx.up.up), s, h)
  {
    RedParent(ctx, h);
    assert Rules(Join(ctx.side, ctx.sibling, ctx.up.node, Red, ctx.up.sibling), h);
  }

  /** When the loop of the repair ends, painting the root black makes every rule hold. */
  lemma {:induction false} InsertionDone(ctx: Context, s: Shape, h: nat) returns (total: nat)
    requires RedFits(ctx, s, h) && (ctx.Frame? ==> ctx.color.Black?)
    ensures Plug(ctx, s).Branch? && Rules(Blackened(Plug(ctx, s)), total)
  {
    if ctx.Top? {
      total := h + 1;
    } else {
      total := PlugRules(ctx, s, h);
      PlugBranch(ctx, s);
    }
  }

  lemma {:induction false} PlugBranch(ctx: Context, s: Shape)
    requires s.Branch?
    ensures Plug(ctx, s).Branch?
  {
    if ctx.Frame? { PlugBranch(ctx.up, Join(ctx.side, s, ctx.node, ctx.color, ctx.sibling)); }
  }

  // ----- removal

  /** The subtree `s` is one black node short of the height its place asks for;
      when its root is red, painting that root black settles the debt. */
  ghost predicate OneShort(ctx: Context, s: Shape, h: nat) {
    && CtxRules(ctx, Black, h + 1)
    && Rules(Blackened(s), if IsBlack(s) then h else h + 1)
  }

  /** Taking out a node with at most one child: a red one leaves the rules intact, a black one leaves its place one
      short. */
  lemma {:induction false} AfterUnlinking(ctx: Context, side: Side, s: Shape, h: nat) returns (h': nat)
    requires s.Branch? && Child(side.Other(), s).Nil? && Rules(s, h) && CtxRules(ctx, s.color, h)
    ensures if s.color.Black? then OneShort(ctx, Child(side, s), h') else RedBlack(Plug(ctx, Child(side, s)))
  {
    BlackSuits(ctx, s.color, h);
    if s.color.Red? {
      h' := PlugRules(ctx, Child(side, s), h);
    } else {
      h' := h - 1;
    }
  }

  /** The same for a node with two children, whose successor `t.node` moves into its place and color. */
  lemma {:induction false} SuccessorRules(inner: Context, t: Shape, ctx: Context, s: Shape, h: nat) returns (h': nat)
    requires s.Branch? && Rules(s, h) && CtxRules(ctx, s.color, h) && Plug(inner, t) == s.right && t.Branch?
    requires t.left.Nil?
    ensures var c := Append(inner, Frame(Right, t.node, s.color, s.left, ctx));
            if t.color.Black? then OneShort(c, t.right, h') else RedBlack(Plug(c, t.right))
  {
    var outer := Frame(Right, s.node, s.color, s.left, ctx);
    var k := UnplugRules(inner, outer, t, if s.color.Black? then h - 1 else h);
    RulesIgnoreNodes(inner, Right, s.node, t.node, s.color, s.left, ctx, t.color, k);
    h' := AfterUnlinking(Append(inner, Frame(Right, t.node, s.color, s.left, ctx)), Right, t, k);
  }

  /** A node that takes part in a repair has a sibling. */
  lemma SiblingExists(ctx: Context, s: Shape, h: nat)
    requires OneShort(ctx, s, h) && ctx.Frame?
    ensures ctx.sibling.Branch?
  {
  }

  /** The surroundings after a red sibling is rotated over the parent. */
  ghost function SiblingRaised(ctx: Context): Context
    requires ctx.Frame? && ctx.sibling.Branch?
  {
    var w := ctx.sibling;
    Frame(ctx.side, ctx.node, Red, Child(ctx.side, w),
          Frame(ctx.side, w.node, Black, Child(ctx.side.Other(), w), ctx.up))
  }

  /** Case 1, a red sibling: rotated over the parent, it leaves a black sibling and a red parent. */
  lemma RedSiblingTurned(ctx: Context, s: Shape, h: nat)
    requires OneShort(ctx, s, h) && ctx.Frame? && ctx.sibling.Branch? && ctx.sibling.color.Red? && IsBlack(s)
    ensures OneShort(SiblingRaised(ctx), s, h)
    ensures SiblingRaised(ctx).sibling.Branch? && SiblingRaised(ctx).sibling.color.Black?
  {
  }

  /** Case 2, a black sibling with black children: painting it red moves the debt to the parent. */
  lemma BlackNephews(ctx: Context, s: Shape, h: nat) returns (h': nat)
    requires OneShort(ctx, s, h) && ctx.Frame? && IsBlack(s)
    requires ctx.sibling.Branch? && ctx.sibling.color.Black? && IsBlack(ctx.sibling.left) && IsBlack(ctx.sibling.right)
    ensures OneShort(ctx.up, Join(ctx.side, s, ctx.node, ctx.color, ctx.sibling.(color := Red)), h')
  {
    h' := if ctx.color.Black? then h + 1 else h;
    BlackSuits(ctx.up, ctx.color, if ctx.color.Black? then h + 2 else h + 1);
  }

  /** The surroundings after a red near nephew is rotated over the sibling. */
  ghost function NephewRaised(ctx: Context): Context
    requires ctx.Frame? && ctx.sibling.Branch? && Child(ctx.side, ctx.sibling).Branch?
  {
    var side, w, k := ctx.side, ctx.sibling, Child(ctx.side, ctx.sibling);
    ctx.(sibling := Join(side, Child(side, k), k.node, Black,
        Join(side, Child(side.Other(), k), w.node, Red, Child(side.Other(), w))))
  }

  /** Case 3, only the near nephew is red: turned over the sibling, it leaves a sibling with a red far child. */
  lemma NearNephewTurned(ctx: Context, s: Shape, h: nat)
    requires OneShort(ctx, s, h) && ctx.Frame? && ctx.sibling.Branch? && ctx.sibling.color.Black?
    requires IsBlack(Child(ctx.side.Other(), ctx.sibling)) && !IsBlack(Child(ctx.side, ctx.sibling))
    ensures OneShort(NephewRaised(ctx), s, h)
  {
    var w, k := ctx.sibling, Child(ctx.side, ctx.sibling);
    assert Rules(w, h + 1) && Rules(k, h);
    assert Rules(Join(ctx.side, Child(ctx.side.Other(), k), w.node, Red, Child(ctx.side.Other(), w)), h);
  }

  /** The subtree that takes the parent's place after the last rotation. */
  ghost function Paid(ctx: Context, s: Shape): Shape
    requires ctx.Frame? && ctx.sibling.Branch?
  {
    var w := ctx.sibling;
    Join(ctx.side, Join(ctx.side, s, ctx.node, Black, Child(ctx.side, w)),
         w.node, ctx.color, Blackened(Child(ctx.side.Other(), w)))
  }

  /** Case 4, a red far nephew: recoloring and one rotation at the parent pay the debt. */
  lemma FarNephewPays(ctx: Context, s: Shape, h: nat) returns (total: nat)
    requires OneShort(ctx, s, h) && ctx.Frame? && IsBlack(s)
    requires ctx.sibling.Branch? && ctx.sibling.color.Black? && !IsBlack(Child(ctx.side.Other(), ctx.sibling))
    ensures OneShort(Top, Plug(ctx.up, Paid(ctx, s)), total)
  {
    var w := ctx.sibling;
    assert Rules(w, h + 1) && Blackened(s) == s;
    assert Rules(Child(ctx.side.Other(), w), h);
    assert Rules(Join(ctx.side, s, ctx.node, Black, Child(ctx.side, w)), h + 1);
    assert Rules(Blackened(Child(ctx.side.Other(), w)), h + 1);
    total := PlugRules(ctx.up, Paid(ctx, s), if ctx.color.Black? then h + 2 else h + 1);
  }

  /** When the loop of the repair ends, painting the focused node black makes every rule hold. */
  lemma RemovalDone(ctx: Context, s: Shape, h: nat)
    requires OneShort(ctx, s, h) && (ctx.Frame? ==> !IsBlack(s))
    ensures RedBlack(Plug(ctx, Blackened(s)))
  {
    if ctx.Frame? {
      var total := PlugRules(ctx, Blackened(s), h + 1);
    }
  }

  // ----- height

  ghost function Height(s: Shape): nat {
    if s.Nil? then 0 else 1 + (if Height(s.left) > Height(s.right) then Height(s.left) else Height(s.right))
  }

  ghost function Size(s: Shape): nat {
    if s.Nil? then 0 else Size(s.left) + 1 + Size(s.right)
  }

  lemma {:induction false} FullToBlackHeight(s: Shape, h: nat)
    requires Rules(s, h)
    ensures Pow2(h) <= Size(s) + 1
    ensures Height(s) <= 2 * h + (if IsBlack(s) then 0 else 1)
  {
    if s.Branch? {
      var k := if s.color.Black? then h - 1 else h;
      FullToBlackHeight(s.left, k);
      FullToBlackHeight(s.right, k);
    }
  }

  /** The logarithmic bound: a tree that keeps the rules has height at most 2 log2(size + 1). */
  lemma HeightBound(s: Shape, h: nat)
    requires Rules(s, h) && IsBlack(s)
    ensures Pow2(Height(s)) <= (Size(s) + 1) * (Size(s) + 1)
  {
    FullToBlackHeight(s, h);
    Pow2Monotone(Height(s), h + h);
    Pow2Add(h, h);
    SquareMonotone(Pow2(h), Size(s) + 1);
  }

  lemma {:induction false} SizeIsCardinality(v: View, s: Shape, p: Node, lo: real, hi: real)
    requires Linked(v, s, p, lo, hi)
    ensures Size(s) == |Nodes(s)|
  {
    if s.Branch? {
      SizeIsCardinality(v, s.left, s.node, lo, s.node.rank);
      SizeIsCardinality(v, s.right, s.node, s.node.rank, hi);
      NodesInside(v, s.left, s.node, lo, s.node.rank);
      NodesInside(v, s.right, s.node, s.node.rank, hi);
      assert |Nodes(s.left) + {s.node}| == |Nodes(s.left)| + 1;
      assert |Nodes(s)| == |Nodes(s.left) + {s.node}| + |Nodes(s.right)|;
    }
  }

  lemma SquareMonotone(a: nat, b: nat)
    requires a <= b
    ensures a * a <= b * b
  {
    assert a * a <= a * b <= b * b;
  }
}
