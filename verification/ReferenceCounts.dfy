/** What the counts of shared-pointer control blocks mean, as a property of a snapshot of all live blocks. */
module ReferenceCounts {

  /** A smart pointer's value: empty, a `SharedPtr` to a block, or a `WeakPtr` to a block. */
  datatype Handle = Null | Strong(cb: ControlBlock) | Weak(cb: ControlBlock)

  /** A control block, with the handles that its managed object owns. */
  class ControlBlock {
    var useCnt: nat
    var weakCnt: nat
    var isDestroying: bool
    /** The smart-pointer members of the managed object that have not been destroyed yet. */
    var members: seq<Handle>
    /** How often the deleter has been called. */
    ghost var deleterRuns: nat

    constructor (members: seq<Handle>)
      ensures useCnt == 1 && weakCnt == 0 && !isDestroying && this.members == members && deleterRuns == 0
    {
      useCnt, weakCnt, isDestroying, deleterRuns := 1, 0, false, 0;
      this.members := members;
    }
  }

  datatype Cell = Cell(use: nat, weak: nat, dying: bool, members: seq<Handle>, runs: nat)
  type Cells = map<ControlBlock, Cell>

  /** All handles owned by managed objects. */
  ghost function Held(cells: Cells): multiset<Handle> {
    if cells == map[] then
      multiset{}
    else
      var b :| b in cells;
      multiset(cells[b].members) + Held(cells - {b})
  }

  lemma {:induction false} HeldSplit(cells: Cells, b: ControlBlock)
    requires b in cells
    ensures Held(cells) == multiset(cells[b].members) + Held(cells - {b})
  {
    var c :| c in cells && Held(cells) == multiset(cells[c].members) + Held(cells - {c});
    if b != c {
      HeldSplit(cells - {c}, b);
      HeldSplit(cells - {b}, c);
      assert cells - {c} - {b} == cells - {b} - {c};
    }
  }

  lemma HeldUpdate(cells: Cells, b: ControlBlock, cell: Cell)
    ensures b in cells ==> Held(cells[b := cell]) + multiset(cells[b].members) == Held(cells) + multiset(cell.members)
    ensures b !in cells ==> Held(cells[b := cell]) == Held(cells) + multiset(cell.members)
  {
    HeldSplit(cells[b := cell], b);
    assert cells[b := cell] - {b} == cells - {b};
    if b in cells { HeldSplit(cells, b); } else { assert cells - {b} == cells; }
  }

  /** Changing anything but the members leaves the held handles as they are. */
  lemma HeldSame(cells: Cells, b: ControlBlock, cell: Cell)
    requires b in cells && cell.members == cells[b].members
    ensures Held(cells[b := cell]) == Held(cells)
  {
    HeldSplit(cells[b := cell], b);
    assert cells[b := cell] - {b} == cells - {b};
    HeldSplit(cells, b);
  }

  lemma {:induction false} HeldBy(cells: Cells, h: Handle)
    requires h in Held(cells)
    ensures exists b :: b in cells && h in cells[b].members
  {
    var b :| b in cells && Held(cells) == multiset(cells[b].members) + Held(cells - {b});
    if h !in cells[b].members {
      HeldBy(cells - {b}, h);
      var c :| c in cells - {b} && h in (cells - {b})[c].members;
      assert c in cells && h in cells[c].members;
    }
  }

  /** Every handle in existence: those inside managed objects, and the `owed` ones outside. */
  ghost function Handles(cells: Cells, owed: multiset<Handle>): multiset<Handle> {
    Held(cells) + owed
  }

  /** A block is in use; or its object is being destroyed; or only weak handles keep it.
      The deleter has run exactly when no strong handle is left. */
  ghost predicate Sound(cell: Cell) {
    && (cell.dying ==> cell.use == 0)
    && (cell.use == 0 && !cell.dying ==> cell.members == [] && cell.weak > 0)
    && cell.runs == (if cell.use > 0 then 0 else 1)
  }

  ghost predicate AllSound(cells: Cells) {
    forall b {:trigger Sound(cells[b])} :: b in cells ==> Sound(cells[b])
  }

  /** The counts are exact, and no handle outlives its block. */
  ghost predicate CountedBy(cells: Cells, all: multiset<Handle>) {
    && (forall b {:trigger all[Strong(b)]} {:trigger all[Weak(b)]} :: b in cells ==>
          cells[b].use == all[Strong(b)] && cells[b].weak == all[Weak(b)])
    && (forall h :: h in all && h != Null ==> h.cb in cells)
  }

  ghost function Total(cells: Cells, owed: multiset<Handle>, h: Handle): nat {
    Handles(cells, owed)[h]
  }

  /** The same about `owed` handles outside and those that the objects hold, stated to be cheap to carry along. */
  ghost predicate Counted(cells: Cells, owed: multiset<Handle>) {
    && (forall b {:trigger Total(cells, owed, Strong(b))} {:trigger Total(cells, owed, Weak(b))} ::
          b in cells ==> cells[b].use == Total(cells, owed, Strong(b)) && cells[b].weak == Total(cells, owed, Weak(b)))
    && (forall h {:trigger Total(cells, owed, h)} :: h in Handles(cells, owed) && h != Null ==> h.cb in cells)
  }

  lemma CountedIff(cells: Cells, owed: multiset<Handle>)
    ensures Counted(cells, owed) <==> CountedBy(cells, Handles(cells, owed))
  {
    var all := Handles(cells, owed);
    assert forall h: Handle :: Total(cells, owed, h) == all[h];
  }

  /** The invariant of the reference-count protocol, with `owed` the handles outside managed objects. */
  ghost predicate Inv(cells: Cells, owed: multiset<Handle>) {
    Counted(cells, owed) && AllSound(cells)
  }

  ghost predicate Quiet(cells: Cells) {
    forall b :: b in cells ==> !cells[b].dying
  }

  // ----- what each step of the protocol keeps

  lemma SoundUpdate(cells: Cells, b: ControlBlock, cell: Cell)
    requires AllSound(cells) && Sound(cell)
    ensures AllSound(cells[b := cell])
  {
    var cells' := cells[b := cell];
    forall c | c in cells'
      ensures Sound(cells'[c])
    {
      if c != b { assert Sound(cells[c]); }
    }
  }

  lemma SoundWithout(cells: Cells, b: ControlBlock)
    requires AllSound(cells)
    ensures AllSound(cells - {b})
  {
    var cells' := cells - {b};
    forall c | c in cells'
      ensures Sound(cells'[c])
    {
      assert Sound(cells[c]);
    }
  }

  lemma TakenFrom(a: multiset<Handle>, b: multiset<Handle>, h: Handle)
    requires h in b
    ensures a + (b - multiset{h}) == (a + b) - multiset{h} && h in a + b
  {
  }

  lemma CountedMinus(cells: Cells, all: multiset<Handle>, h: Handle, less: Cell)
    requires CountedBy(cells, all) && h in all && h != Null
    requires h.Strong? ==> less.use == cells[h.cb].use - 1 && less.weak == cells[h.cb].weak
    requires h.Weak? ==> less.use == cells[h.cb].use && less.weak == cells[h.cb].weak - 1
    ensures CountedBy(cells[h.cb := less], all - multiset{h})
  {
  }

  lemma CountedPlus(cells: Cells, all: multiset<Handle>, h: Handle, more: Cell)
    requires CountedBy(cells, all) && h != Null && h.cb in cells
    requires h.Strong? ==> more.use == cells[h.cb].use + 1 && more.weak == cells[h.cb].weak
    requires h.Weak? ==> more.use == cells[h.cb].use && more.weak == cells[h.cb].weak + 1
    ensures CountedBy(cells[h.cb := more], all + multiset{h})
  {
  }

  lemma CountedSame(cells: Cells, all: multiset<Handle>, b: ControlBlock, cell: Cell)
    requires CountedBy(cells, all) && b in cells && cell.use == cells[b].use && cell.weak == cells[b].weak
    ensures CountedBy(cells[b := cell], all)
  {
  }

  lemma CountedWithout(cells: Cells, all: multiset<Handle>, b: ControlBlock)
    requires CountedBy(cells, all) && b in cells && cells[b].use == 0 && cells[b].weak == 0
    ensures CountedBy(cells - {b}, all)
  {
    assert all[Strong(b)] == 0 && all[Weak(b)] == 0;
  }

  lemma HeldWithout(cells: Cells, b: ControlBlock)
    requires b in cells && cells[b].members == []
    ensures Held(cells - {b}) == Held(cells)
  {
    HeldSplit(cells, b);
  }

  lemma AddedTo(a: multiset<Handle>, b: multiset<Handle>, h: Handle)
    ensures a + (b + multiset{h}) == (a + b) + multiset{h}
  {
  }

  lemma MovedOut(a: multiset<Handle>, a': multiset<Handle>, m: multiset<Handle>, m': multiset<Handle>,
      owed: multiset<Handle>, h: Handle)
    requires a' + m == a + m' && m == m' + multiset{h}
    ensures a' + (owed + multiset{h}) == a + owed
  {
    forall x: Handle
      ensures (a' + (owed + multiset{h}))[x] == (a + owed)[x]
    {
      assert (a' + m)[x] == (a + m')[x];
    }
  }

  lemma Unreferenced(cells: Cells, owed: multiset<Handle>, b: ControlBlock)
    requires Inv(cells, owed) && b in cells && cells[b].members == [] && cells[b].use == 0 && cells[b].weak == 0
    ensures Inv(cells - {b}, owed)
  {
    CountedIff(cells, owed);
    HeldWithout(cells, b);
    CountedWithout(cells, Handles(cells, owed), b);
    SoundWithout(cells, b);
    CountedIff(cells - {b}, owed);
  }

  lemma NullDropped(cells: Cells, owed: multiset<Handle>)
    requires Inv(cells, owed) && Null in owed
    ensures Inv(cells, owed - multiset{Null})
  {
    CountedIff(cells, owed);
    TakenFrom(Held(cells), owed, Null);
    CountedIff(cells, owed - multiset{Null});
  }

  /** A handle in existence refers to a live block, and a strong one to an object in use. */
  lemma Referenced(cells: Cells, owed: multiset<Handle>, h: Handle)
    requires Inv(cells, owed) && h in owed && h != Null
    ensures h.cb in cells
    ensures h.Strong? ==> cells[h.cb].use > 0 && !cells[h.cb].dying
    ensures h.Weak? ==> cells[h.cb].weak > 0
  {
    CountedIff(cells, owed);
    assert h in Handles(cells, owed) && h.cb in cells && Sound(cells[h.cb]);
  }

  lemma NothingYet()
    ensures Inv(map[], multiset{}) && Quiet(map[])
  {
    CountedIff(map[], multiset{});
  }

  /** Empty handles do not matter. */
  lemma NullsAdded(cells: Cells, owed: multiset<Handle>, nulls: multiset<Handle>)
    requires Inv(cells, owed) && forall h :: h in nulls ==> h == Null
    ensures Inv(cells, owed + nulls)
  {
    CountedIff(cells, owed);
    Regrouped(Held(cells), nulls, owed);
    var all := Handles(cells, owed);
    assert Held(cells) + (owed + nulls) == all + nulls;
    assert forall b :: (all + nulls)[Strong(b)] == all[Strong(b)] && (all + nulls)[Weak(b)] == all[Weak(b)];
    CountedIff(cells, owed + nulls);
  }

  lemma NullsDropped(cells: Cells, owed: multiset<Handle>, nulls: multiset<Handle>)
    requires Inv(cells, owed + nulls) && forall h :: h in nulls ==> h == Null
    ensures Inv(cells, owed)
  {
    CountedIff(cells, owed + nulls);
    Regrouped(Held(cells), nulls, owed);
    var all := Handles(cells, owed);
    assert Held(cells) + (owed + nulls) == all + nulls;
    assert forall b :: (all + nulls)[Strong(b)] == all[Strong(b)] && (all + nulls)[Weak(b)] == all[Weak(b)];
    assert forall h :: h in all ==> h in all + nulls;
    CountedIff(cells, owed);
  }

  /** The same for a handle that is a member of the object of `c`, or outside. */
  lemma HandleIsSafe(cells: Cells, owed: multiset<Handle>, h: Handle, c: ControlBlock)
    requires Inv(cells, owed) && h != Null && (h in owed || (c in cells && h in cells[c].members))
    ensures h.cb in cells
    ensures h.Strong? ==> cells[h.cb].use > 0
    ensures cells[h.cb].runs == if cells[h.cb].use > 0 then 0 else 1
    ensures h.Weak? ==> cells[h.cb].weak > 0
  {
    CountedIff(cells, owed);
    if h !in owed { HeldSplit(cells, c); }
    assert h in Handles(cells, owed) && h.cb in cells && Sound(cells[h.cb]);
  }

  /** A strong handle goes, and another is left. */
  lemma StrongDropped(cells: Cells, owed: multiset<Handle>, b: ControlBlock)
    requires Inv(cells, owed) && Strong(b) in owed && b in cells && cells[b].use > 1
    ensures Inv(cells[b := cells[b].(use := cells[b].use - 1)], owed - multiset{Strong(b)})
  {
    CountedIff(cells, owed);
    assert Sound(cells[b]);
    var less := cells[b].(use := cells[b].use - 1);
    HeldSame(cells, b, less);
    TakenFrom(Held(cells), owed, Strong(b));
    CountedMinus(cells, Handles(cells, owed), Strong(b), less);
    SoundUpdate(cells, b, less);
    CountedIff(cells[b := less], owed - multiset{Strong(b)});
  }

  /** The last strong handle goes: the object starts to die. */
  lemma LastStrongDropped(cells: Cells, owed: multiset<Handle>, b: ControlBlock)
    requires Inv(cells, owed) && Strong(b) in owed && b in cells && cells[b].use == 1
    ensures Inv(cells[b := cells[b].(use := 0, dying := true, runs := cells[b].runs + 1)], owed - multiset{Strong(b)})
  {
    CountedIff(cells, owed);
    assert Sound(cells[b]);
    var less := cells[b].(use := 0, dying := true, runs := cells[b].runs + 1);
    HeldSame(cells, b, less);
    TakenFrom(Held(cells), owed, Strong(b));
    CountedMinus(cells, Handles(cells, owed), Strong(b), less);
    SoundUpdate(cells, b, less);
    CountedIff(cells[b := less], owed - multiset{Strong(b)});
  }

  /** A dying object gives up its last remaining member. */
  lemma MemberReleased(cells: Cells, owed: multiset<Handle>, b: ControlBlock)
    requires Inv(cells, owed) && b in cells && cells[b].dying && cells[b].members != []
    ensures var ms := cells[b].members;
            Inv(cells[b := cells[b].(members := ms[..|ms| - 1])], owed + multiset{ms[|ms| - 1]})
  {
    CountedIff(cells, owed);
    assert Sound(cells[b]);
    var ms := cells[b].members;
    var k := |ms| - 1;
    var fewer := cells[b].(members := ms[..k]);
    HeldUpdate(cells, b, fewer);
    assert ms == ms[..k] + [ms[k]];
    MovedOut(Held(cells), Held(cells[b := fewer]), multiset(ms), multiset(ms[..k]), owed, ms[k]);
    CountedSame(cells, Handles(cells, owed), b, fewer);
    SoundUpdate(cells, b, fewer);
    CountedIff(cells[b := fewer], owed + multiset{ms[k]});
  }

  /** The object is gone: weak handles may keep the block, otherwise it goes too. */
  lemma DestructionEnds(cells: Cells, owed: multiset<Handle>, b: ControlBlock)
    requires Inv(cells, owed) && b in cells && cells[b].dying && cells[b].members == []
    ensures Inv(if cells[b].weak == 0 then cells - {b} else cells[b := cells[b].(dying := false)], owed)
  {
    CountedIff(cells, owed);
    assert Sound(cells[b]);
    if cells[b].weak == 0 {
      Unreferenced(cells, owed, b);
    } else {
      HeldSame(cells, b, cells[b].(dying := false));
      CountedSame(cells, Handles(cells, owed), b, cells[b].(dying := false));
      SoundUpdate(cells, b, cells[b].(dying := false));
    }
    if cells[b].weak > 0 { CountedIff(cells[b := cells[b].(dying := false)], owed); }
  }

  /** A weak handle goes; the block follows when nothing is left that needs it. */
  lemma WeakDropped(cells: Cells, owed: multiset<Handle>, b: ControlBlock)
    requires Inv(cells, owed) && Weak(b) in owed && b in cells
    ensures cells[b].weak > 0
    ensures var less := cells[b].(weak := cells[b].weak - 1);
            Inv(if less.weak == 0 && less.use == 0 && !less.dying then cells - {b} else cells[b := less],
                owed - multiset{Weak(b)})
  {
    CountedIff(cells, owed);
    assert Sound(cells[b]);
    Referenced(cells, owed, Weak(b));
    var less := cells[b].(weak := cells[b].weak - 1);
    HeldSame(cells, b, less);
    TakenFrom(Held(cells), owed, Weak(b));
    CountedMinus(cells, Handles(cells, owed), Weak(b), less);
    if less.weak == 0 && less.use == 0 && !less.dying {
      HeldWithout(cells[b := less], b);
      CountedWithout(cells[b := less], Handles(cells, owed) - multiset{Weak(b)}, b);
      assert cells[b := less] - {b} == cells - {b};
      SoundWithout(cells, b);
    } else {
      SoundUpdate(cells, b, less);
    }
    CountedIff(cells - {b}, owed - multiset{Weak(b)});
    CountedIff(cells[b := less], owed - multiset{Weak(b)});
  }

  /** Another strong handle to an object in use is made. */
  lemma StrongAdded(cells: Cells, owed: multiset<Handle>, b: ControlBlock)
    requires Inv(cells, owed) && b in cells && cells[b].use > 0
    ensures Inv(cells[b := cells[b].(use := cells[b].use + 1)], owed + multiset{Strong(b)})
  {
    CountedIff(cells, owed);
    assert Sound(cells[b]);
    var more := cells[b].(use := cells[b].use + 1);
    HeldSame(cells, b, more);
    CountedPlus(cells, Handles(cells, owed), Strong(b), more);
    AddedTo(Held(cells), owed, Strong(b));
    SoundUpdate(cells, b, more);
    CountedIff(cells[b := more], owed + multiset{Strong(b)});
  }

  /** Another weak handle to a live block is made. */
  lemma WeakAdded(cells: Cells, owed: multiset<Handle>, b: ControlBlock)
    requires Inv(cells, owed) && b in cells
    ensures Inv(cells[b := cells[b].(weak := cells[b].weak + 1)], owed + multiset{Weak(b)})
  {
    CountedIff(cells, owed);
    assert Sound(cells[b]);
    var more := cells[b].(weak := cells[b].weak + 1);
    HeldSame(cells, b, more);
    CountedPlus(cells, Handles(cells, owed), Weak(b), more);
    AddedTo(Held(cells), owed, Weak(b));
    SoundUpdate(cells, b, more);
    CountedIff(cells[b := more], owed + multiset{Weak(b)});
  }

  /** A new block takes over handles as the members of its object, and is held once. */
  lemma BlockMade(cells: Cells, owed: multiset<Handle>, b: ControlBlock, members: seq<Handle>)
    requires Inv(cells, owed + multiset(members)) && b !in cells
    ensures Inv(cells[b := Cell(1, 0, false, members, 0)], owed + multiset{Strong(b)})
  {
    CountedIff(cells, owed + multiset(members));
    var all := Handles(cells, owed + multiset(members));
    HeldUpdate(cells, b, Cell(1, 0, false, members, 0));
    assert all[Strong(b)] == 0 && all[Weak(b)] == 0 by {
      assert forall h :: h in all && h != Null ==> h.cb != b;
    }
    Regrouped(Held(cells), multiset(members), owed);
    CountedNew(cells, all, b, Cell(1, 0, false, members, 0));
    AddedTo(Held(cells) + multiset(members), owed, Strong(b));
    SoundUpdate(cells, b, Cell(1, 0, false, members, 0));
    CountedIff(cells[b := Cell(1, 0, false, members, 0)], owed + multiset{Strong(b)});
  }

  lemma Regrouped(a: multiset<Handle>, m: multiset<Handle>, owed: multiset<Handle>)
    ensures (a + m) + owed == a + (owed + m)
  {
  }

  lemma CountedNew(cells: Cells, all: multiset<Handle>, b: ControlBlock, cell: Cell)
    requires CountedBy(cells, all) && b !in cells && all[Strong(b)] == 0 && all[Weak(b)] == 0 && cell.use == 1
    requires cell.weak == 0
    ensures CountedBy(cells[b := cell], all + multiset{Strong(b)})
  {
  }

  /** A member of an object in use is exchanged for another handle. */
  lemma MemberExchanged(cells: Cells, owed: multiset<Handle>, b: ControlBlock, k: nat, h: Handle)
    requires Inv(cells, owed) && b in cells && cells[b].use > 0 && k < |cells[b].members| && h in owed
    ensures var ms := cells[b].members;
            Inv(cells[b := cells[b].(members := ms[k := h])], owed - multiset{h} + multiset{ms[k]})
  {
    CountedIff(cells, owed);
    assert Sound(cells[b]);
    var ms := cells[b].members;
    var cells' := cells[b := cells[b].(members := ms[k := h])];
    HeldUpdate(cells, b, cells'[b]);
    Exchanged(Held(cells), Held(cells'), multiset(ms), multiset(ms[k := h]), owed, h, ms[k]);
    CountedSame(cells, Handles(cells, owed), b, cells'[b]);
    SoundUpdate(cells, b, cells'[b]);
    CountedIff(cells', owed - multiset{h} + multiset{ms[k]});
  }

  /** A member becomes empty, and its handle is outside. */
  lemma MemberCleared(cells: Cells, owed: multiset<Handle>, b: ControlBlock, k: nat)
    requires Inv(cells, owed) && b in cells && cells[b].use > 0 && k < |cells[b].members|
    ensures var ms := cells[b].members;
            Inv(cells[b := cells[b].(members := ms[k := Null])], owed + multiset{ms[k]})
    ensures Quiet(cells) ==> Quiet(cells[b := cells[b].(members := cells[b].members[k := Null])])
  {
    NullsAdded(cells, owed, multiset{Null});
    MemberExchanged(cells, owed + multiset{Null}, b, k, Null);
    assert owed + multiset{Null} - multiset{Null} == owed;
  }

  lemma Exchanged(a: multiset<Handle>, a': multiset<Handle>, m: multiset<Handle>, m': multiset<Handle>,
      owed: multiset<Handle>, h: Handle, g: Handle)
    requires a' + m == a + m' && m' == m - multiset{g} + multiset{h} && g in m && h in owed
    ensures a' + (owed - multiset{h} + multiset{g}) == a + owed
  {
    forall x: Handle
      ensures (a' + (owed - multiset{h} + multiset{g}))[x] == (a + owed)[x]
    {
      assert (a' + m)[x] == (a + m')[x];
    }
  }

  /** The deleter has run exactly once for an object without strong handles, and not at all for one in use. */
  lemma DeletedOnce(cells: Cells, owed: multiset<Handle>, b: ControlBlock)
    requires Inv(cells, owed) && b in cells
    ensures cells[b].runs == if cells[b].use > 0 then 0 else 1
  {
    assert Sound(cells[b]);
  }

  // ----- whole cascades

  /** What a release may do to the blocks: dying objects keep their blocks, objects still in use are not
      touched, no block appears, and nothing is left dying that was not dying before. */
  ghost predicate Evolves(cells: Cells, cells': Cells) {
    && cells'.Keys <= cells.Keys && InUse(cells') <= InUse(cells)
    && forall b {:trigger EvolvesAt(cells, cells', b)} :: b in cells ==> EvolvesAt(cells, cells', b)
  }

  ghost predicate EvolvesAt(cells: Cells, cells': Cells, b: ControlBlock)
    requires b in cells
  {
    && (cells[b].dying ==>
         b in cells' && cells'[b].dying && cells'[b].use == cells[b].use && cells'[b].members == cells[b].members)
    && (b in cells' && cells'[b].dying ==> cells[b].dying)
    && (b in cells' && cells'[b].use > 0 ==> cells[b].use >= cells'[b].use && cells'[b].members == cells[b].members)
  }

  ghost function InUse(cells: Cells): set<ControlBlock> {
    set b | b in cells && cells[b].use > 0
  }

  lemma StaysQuiet(a: Cells, b: Cells)
    requires Quiet(a) && Evolves(a, b)
    ensures Quiet(b)
  {
    forall x | x in b
      ensures !b[x].dying
    {
      assert EvolvesAt(a, b, x);
    }
  }

  lemma EvolvesOn(a: Cells, b: Cells, c: Cells)
    requires Evolves(a, b) && Evolves(b, c)
    ensures Evolves(a, c) && |InUse(c)| <= |InUse(a)|
  {
    forall x | x in a
      ensures EvolvesAt(a, c, x)
    {
      assert EvolvesAt(a, b, x);
      if x in b { assert EvolvesAt(b, c, x); }
    }
    CardinalityMonotone(InUse(c), InUse(a));
  }

  lemma EvolvesSame(cells: Cells)
    ensures Evolves(cells, cells)
  {
  }

  lemma SameInUse(cells: Cells, b: ControlBlock, ms: seq<Handle>)
    requires b in cells
    ensures InUse(cells[b := cells[b].(members := ms)]) == InUse(cells)
  {
  }

  lemma SurvivesAsItWas(a: Cells, z: Cells, b: ControlBlock)
    requires Evolves(a, z) && b in z && z[b].use > 0
    ensures b in a && a[b].use > 0 && z[b].members == a[b].members
  {
    assert EvolvesAt(a, z, b);
  }

  /** A dying object and its remaining members outlast releases. */
  lemma StaysDying(a: Cells, z: Cells, b: ControlBlock)
    requires Evolves(a, z) && b in a && a[b].dying
    ensures b in z && z[b].dying && z[b].use == a[b].use && z[b].members == a[b].members
  {
    assert EvolvesAt(a, z, b);
  }

  lemma CardinalityMonotone(a: set<ControlBlock>, b: set<ControlBlock>)
    requires a <= b
    ensures |a| <= |b| && (a != b ==> |a| < |b|)
  {
    assert b == a + (b - a);
    if a != b {
      var x :| x in b - a;
    }
  }

  /** A dying object may have given up members on both sides of an evolution. */
  lemma FewerMembers(a: Cells, b: Cells, c: ControlBlock, ms: seq<Handle>)
    requires c in a && a[c].dying && a[c].use == 0 && c in b && Evolves(a[c := a[c].(members := b[c].members)], b)
    ensures Evolves(a[c := a[c].(members := ms)], b[c := b[c].(members := ms)])
    ensures |InUse(b[c := b[c].(members := ms)])| <= |InUse(a)|
  {
    var a', b' := a[c := a[c].(members := ms)], b[c := b[c].(members := ms)];
    forall x | x in a'
      ensures EvolvesAt(a', b', x)
    {
      assert EvolvesAt(a[c := a[c].(members := b[c].members)], b, x);
    }
    assert EvolvesAt(a[c := a[c].(members := b[c].members)], b, c);
    forall x | x in InUse(b')
      ensures x in InUse(a)
    {
      assert x in InUse(b);
    }
    CardinalityMonotone(InUse(b'), InUse(a));
  }

  /** The object of `b` starts to die: one object less is in use. */
  lemma LessInUse(a: Cells, a': Cells, b: ControlBlock)
    requires b in a && a[b].use > 0 && b in a' && a' == a[b := a'[b]] && a'[b].use == 0
    ensures |InUse(a')| < |InUse(a)|
  {
    assert InUse(a') == InUse(a) - {b};
  }

  /** The block whose object has been destroyed stays, no longer dying, or goes. */
  ghost predicate Ended(c: Cells, d: Cells, b: ControlBlock) {
    b in c && c[b].use == 0 && (d == c - {b} || d == c[b := c[b].(dying := false)])
  }

  /** From the last release of a block through the destruction of its object to its end. */
  lemma ReleaseEvolves(a: Cells, dying: Cells, c: Cells, d: Cells, b: ControlBlock)
    requires b in a && !a[b].dying && b in dying && dying == a[b := dying[b]] && dying[b].use == 0 && dying[b].dying
    requires dying[b].members == []
    requires Evolves(dying, c) && Ended(c, d, b)
    ensures Evolves(a, d)
  {
    forall x | x in a
      ensures EvolvesAt(a, d, x)
    {
      assert EvolvesAt(dying, c, x);
    }
  }

  lemma WeakDropEvolves(a: Cells, d: Cells, b: ControlBlock)
    requires b in a && a[b].weak > 0
    requires d == a[b := a[b].(weak := a[b].weak - 1)] || (d == a - {b} && a[b].use == 0 && !a[b].dying)
    ensures Evolves(a, d)
  {
  }

  lemma StrongDropEvolves(a: Cells, b: ControlBlock)
    requires b in a && a[b].use > 1 && !a[b].dying
    ensures Evolves(a, a[b := a[b].(use := a[b].use - 1)])
  {
  }

  // ----- who owns what

  /** Each block of `path` is held by a strong member of the object before it. */
  ghost predicate StrongPath(cells: Cells, older path: seq<ControlBlock>) {
    && path != [] && (forall i :: 0 <= i < |path| ==> path[i] in cells)
    && forall i :: 0 < i < |path| ==> Strong(path[i]) in cells[path[i - 1]].members
  }

  /** A path whose first block is held by a strong member of an object on the path itself. */
  ghost predicate SelfHeld(cells: Cells, older path: seq<ControlBlock>) {
    StrongPath(cells, path) && exists k :: 0 <= k < |path| && Strong(path[0]) in cells[path[k]].members
  }

  /** Strong ownership that comes back to where it started. */
  ghost predicate Cycle(cells: Cells, older path: seq<ControlBlock>) {
    StrongPath(cells, path) && Strong(path[0]) in cells[path[|path| - 1]].members
  }

  /** A way to `b` that starts at a handle outside, or in a cycle. */
  ghost predicate Owned(cells: Cells, owed: multiset<Handle>, older path: seq<ControlBlock>, older b: ControlBlock) {
    StrongPath(cells, path) && path[|path| - 1] == b && (Strong(path[0]) in owed || SelfHeld(cells, path))
  }

  /** The objects on a self-held path are in use. */
  lemma OnPathInUse(cells: Cells, owed: multiset<Handle>, path: seq<ControlBlock>, i: nat)
    requires Inv(cells, owed) && SelfHeld(cells, path) && i < |path|
    ensures cells[path[i]].use > 0
  {
    var k :| 0 <= k < |path| && Strong(path[0]) in cells[path[k]].members;
    HandleIsSafe(cells, owed, Strong(path[i]), path[if i > 0 then i - 1 else k]);
  }

  /** And so are those on any way from outside. */
  lemma OnWayInUse(cells: Cells, owed: multiset<Handle>, path: seq<ControlBlock>, b: ControlBlock, i: nat)
    requires Inv(cells, owed) && Owned(cells, owed, path, b) && i < |path|
    ensures cells[path[i]].use > 0
  {
    if SelfHeld(cells, path) {
      OnPathInUse(cells, owed, path, i);
    } else {
      HandleIsSafe(cells, owed, Strong(path[i]), path[if i > 0 then i - 1 else 0]);
    }
  }

  /** A self-held path goes through a cycle, and a cycle is one. */
  lemma CycleIffSelfHeld(cells: Cells)
    ensures (exists path: seq<ControlBlock> :: Cycle(cells, path)) <==>
              exists path: seq<ControlBlock> :: SelfHeld(cells, path)
  {
    if path: seq<ControlBlock> :| SelfHeld(cells, path) {
      var k :| 0 <= k < |path| && Strong(path[0]) in cells[path[k]].members;
      assert Cycle(cells, path[..k + 1]);
    }
    if path: seq<ControlBlock> :| Cycle(cells, path) {
      assert SelfHeld(cells, path);
    }
  }

  /** Walking from an object in use to an owner of it, and so on, ends outside or comes back. */
  lemma {:induction false} WalkToOwners(cells: Cells, owed: multiset<Handle>, path: seq<ControlBlock>,
      unseen: set<ControlBlock>)
    returns (way: seq<ControlBlock>)
    requires Inv(cells, owed) && Quiet(cells) && StrongPath(cells, path) && cells[path[0]].use > 0
    requires forall b :: b in cells ==> b in unseen || b in path
    ensures Owned(cells, owed, way, path[|path| - 1])
    decreases unseen
  {
    var b := path[0];
    if Strong(b) in owed {
      way := path;
    } else {
      var c := SomeOwner(cells, owed, b);
      if c in path {
        way := path;
      } else {
        way := WalkToOwners(cells, owed, [c] + path, unseen - {c});
      }
    }
  }

  lemma SomeOwner(cells: Cells, owed: multiset<Handle>, b: ControlBlock) returns (c: ControlBlock)
    requires Inv(cells, owed) && Quiet(cells) && b in cells && cells[b].use > 0 && Strong(b) !in owed
    ensures c in cells && Strong(b) in cells[c].members && cells[c].use > 0
  {
    CountedIff(cells, owed);
    assert Strong(b) in Handles(cells, owed);
    HeldBy(cells, Strong(b));
    c :| c in cells && Strong(b) in cells[c].members;
    assert Sound(cells[c]);
  }

  /** An object is in use exactly when strong ownership leads to it from outside or from a cycle. */
  lemma InUseIffOwned(cells: Cells, owed: multiset<Handle>, b: ControlBlock)
    requires Inv(cells, owed) && Quiet(cells) && b in cells
    ensures cells[b].use > 0 <==> exists path: seq<ControlBlock> :: Owned(cells, owed, path, b)
  {
    if cells[b].use > 0 {
      var path := WalkToOwners(cells, owed, [b], cells.Keys);
    }
    if path: seq<ControlBlock> :| Owned(cells, owed, path, b) {
      OnWayInUse(cells, owed, path, b, |path| - 1);
    }
  }

  // ----- what releases leave behind

  /** Self-held paths outlast a change. */
  ghost predicate Keeps(cells: Cells, cells': Cells) {
    forall path: seq<ControlBlock> :: SelfHeld(cells, path) ==> SelfHeld(cells', path)
  }

  lemma KeepsOn(a: Cells, b: Cells, c: Cells)
    requires Keeps(a, b) && Keeps(b, c)
    ensures Keeps(a, c)
  {
  }

  /** A step that leaves the members of the objects in use alone cannot break a self-held path: the objects on it hold
      each other. */
  lemma SelfHeldKept(a: Cells, owed: multiset<Handle>, b: Cells)
    requires Inv(a, owed) && forall x :: x in a && a[x].use > 0 ==> x in b && b[x].members == a[x].members
    ensures Keeps(a, b)
  {
    forall path: seq<ControlBlock> | SelfHeld(a, path)
      ensures SelfHeld(b, path)
    {
      forall i | 0 <= i < |path|
        ensures path[i] in b && b[path[i]].members == a[path[i]].members
      {
        OnPathInUse(a, owed, path, i);
      }
    }
  }

  /** And no release makes a self-held path that was not there before. */
  lemma SelfHeldBefore(a: Cells, b: Cells, owed: multiset<Handle>, path: seq<ControlBlock>)
    requires Evolves(a, b) && Inv(b, owed) && SelfHeld(b, path)
    ensures SelfHeld(a, path)
  {
    forall i | 0 <= i < |path|
      ensures path[i] in a && a[path[i]].members == b[path[i]].members
    {
      OnPathInUse(b, owed, path, i);
      assert path[i] in b && EvolvesAt(a, b, path[i]);
    }
  }

  ghost predicate SameCycles(cells: Cells, cells': Cells) {
    && (forall path: seq<ControlBlock> :: Cycle(cells, path) ==> Cycle(cells', path))
    && (forall path: seq<ControlBlock> :: Cycle(cells', path) ==> Cycle(cells, path))
  }

  /** So the cycles after a release are the cycles before it. */
  lemma CyclesKept(a: Cells, b: Cells, owed: multiset<Handle>)
    requires Evolves(a, b) && Keeps(a, b) && Inv(b, owed)
    ensures SameCycles(a, b)
  {
    forall path: seq<ControlBlock>
      ensures Cycle(a, path) <==> Cycle(b, path)
    {
      if Cycle(a, path) { assert SelfHeld(a, path); }
      if Cycle(b, path) { assert SelfHeld(b, path); }
      if SelfHeld(b, path) {
        forall i | 0 <= i < |path|
          ensures path[i] in a && a[path[i]].members == b[path[i]].members
        {
          OnPathInUse(b, owed, path, i);
          assert EvolvesAt(a, b, path[i]);
        }
      }
    }
  }

  lemma {:induction false} NothingHeld(cells: Cells)
    requires forall b :: b in cells ==> cells[b].members == []
    ensures Held(cells) == multiset{}
  {
    if cells != map[] {
      var b :| b in cells && Held(cells) == multiset(cells[b].members) + Held(cells - {b});
      NothingHeld(cells - {b});
    }
  }

  /** Blocks are not kept by weak handles alone, once those outside are gone. */
  lemma NothingInUse(cells: Cells)
    requires Inv(cells, multiset{}) && Quiet(cells) && forall b :: b in cells ==> cells[b].use == 0
    ensures cells == map[]
  {
    CountedIff(cells, multiset{});
    forall b | b in cells
      ensures cells[b].members == [] && cells[b].weak > 0
    {
      assert Sound(cells[b]);
    }
    NothingHeld(cells);
    assert forall b :: b in cells ==> cells[b].weak == Handles(cells, multiset{})[Weak(b)];
  }

  /** A way to an object stands as long as the objects in use keep their members. */
  lemma OwnedKept(a: Cells, owed: multiset<Handle>, z: Cells, path: seq<ControlBlock>, b: ControlBlock)
    requires Inv(a, owed) && Owned(a, owed, path, b)
    requires forall x :: x in a && a[x].use > 0 ==> x in z && z[x].members == a[x].members
    ensures Owned(z, owed, path, b)
  {
    forall i | 0 <= i < |path|
      ensures path[i] in z && z[path[i]].members == a[path[i]].members
    {
      OnWayInUse(a, owed, path, b, i);
    }
    if SelfHeld(a, path) { assert SelfHeld(z, path); }
  }

  /** Releases of other handles leave a way from outside as it is, one object after the other. */
  lemma {:induction false} WayOutlasts(a: Cells, z: Cells, owed: multiset<Handle>, path: seq<ControlBlock>, i: nat)
    requires Evolves(a, z) && Inv(z, owed) && StrongPath(a, path) && Strong(path[0]) in owed && i < |path|
    ensures path[i] in z && z[path[i]].use > 0 && z[path[i]].members == a[path[i]].members
  {
    if i > 0 { WayOutlasts(a, z, owed, path, i - 1); }
    HandleIsSafe(z, owed, Strong(path[i]), path[if i > 0 then i - 1 else 0]);
    assert EvolvesAt(a, z, path[i]);
  }

  /** So a way to an object outlasts releases, if it starts at a handle that is still outside afterwards. */
  lemma OwnedOutlasts(a: Cells, z: Cells, owed: multiset<Handle>, path: seq<ControlBlock>, b: ControlBlock)
    requires Evolves(a, z) && Keeps(a, z) && Inv(z, owed) && Owned(a, owed, path, b)
    ensures Owned(z, owed, path, b) && z[b].use > 0
  {
    if !SelfHeld(a, path) {
      forall i | 0 <= i < |path|
        ensures path[i] in z && z[path[i]].members == a[path[i]].members
      {
        WayOutlasts(a, z, owed, path, i);
      }
    }
    OnWayInUse(z, owed, path, b, |path| - 1);
  }

  /** And releases make no way that was not there before. */
  lemma OwnedBefore(a: Cells, z: Cells, owed: multiset<Handle>, path: seq<ControlBlock>, b: ControlBlock)
    requires Evolves(a, z) && Inv(z, owed) && Owned(z, owed, path, b)
    ensures Owned(a, owed, path, b)
  {
    forall i | 0 <= i < |path|
      ensures path[i] in a && a[path[i]].members == z[path[i]].members
    {
      OnWayInUse(z, owed, path, b, i);
      assert path[i] in z && EvolvesAt(a, z, path[i]);
    }
    if SelfHeld(z, path) { assert SelfHeld(a, path); }
  }

  /** After any releases, with the handles of `owed` left outside: the objects still in use are exactly those to which
      strong ownership led before from one of these handles, or from a cycle. */
  lemma SurvivorsAreOwned(a: Cells, z: Cells, owed: multiset<Handle>, b: ControlBlock)
    requires Evolves(a, z) && Keeps(a, z) && Inv(z, owed) && Quiet(z)
    ensures b in z && z[b].use > 0 <==> exists path: seq<ControlBlock> :: Owned(a, owed, path, b)
  {
    if b in z && z[b].use > 0 {
      InUseIffOwned(z, owed, b);
      var path: seq<ControlBlock> :| Owned(z, owed, path, b);
      OwnedBefore(a, z, owed, path, b);
    }
    if path: seq<ControlBlock> :| Owned(a, owed, path, b) {
      OwnedOutlasts(a, z, owed, path, b);
    }
  }

  /** The objects of `a` that are in use in `z` are those owned, in `a`, by what is left outside or by a cycle. */
  ghost predicate OwnedSurvive(a: Cells, z: Cells, owed: multiset<Handle>) {
    && (forall b :: b in z && z[b].use > 0 ==> exists path: seq<ControlBlock> :: Owned(a, owed, path, b))
    && (forall b, path: seq<ControlBlock> :: Owned(a, owed, path, b) ==> b in z && z[b].use > 0)
  }

  lemma ExactSurvivors(a: Cells, z: Cells, owed: multiset<Handle>)
    requires Evolves(a, z) && Keeps(a, z) && Inv(z, owed) && Quiet(z)
    ensures OwnedSurvive(a, z, owed)
  {
    forall b | b in z && z[b].use > 0
      ensures exists path: seq<ControlBlock> :: Owned(a, owed, path, b)
    {
      SurvivorsAreOwned(a, z, owed, b);
    }
    forall b, path: seq<ControlBlock> | Owned(a, owed, path, b)
      ensures b in z && z[b].use > 0
    {
      OwnedOutlasts(a, z, owed, path, b);
    }
  }

  /** With no handle left outside, these are the objects to which a cycle led. */
  lemma SurvivorsAreCyclic(a: Cells, z: Cells, b: ControlBlock)
    requires Evolves(a, z) && Keeps(a, z) && Inv(z, multiset{}) && Quiet(z)
    ensures b in z && z[b].use > 0 <==> exists path: seq<ControlBlock> :: SelfHeld(a, path) && path[|path| - 1] == b
  {
    SurvivorsAreOwned(a, z, multiset{}, b);
    if path: seq<ControlBlock> :| SelfHeld(a, path) && path[|path| - 1] == b {
      assert Owned(a, multiset{}, path, b);
    }
  }

  /** Nothing is left exactly when strong ownership had no cycle before; cycles of weak handles do not matter. */
  lemma NoLeakIffNoCycle(a: Cells, z: Cells)
    requires Evolves(a, z) && Keeps(a, z) && Inv(z, multiset{}) && Quiet(z)
    ensures z == map[] <==> !exists path: seq<ControlBlock> :: Cycle(a, path)
  {
    CycleIffSelfHeld(a);
    if path: seq<ControlBlock> :| SelfHeld(a, path) {
      SurvivorsAreCyclic(a, z, path[|path| - 1]);
    } else {
      forall b | b in z
        ensures z[b].use == 0
      {
        SurvivorsAreCyclic(a, z, b);
      }
      NothingInUse(z);
    }
  }

  // ----- a member whose handle is released before it is cleared

  /** The member, if any, whose handle a `Reset` under way has released but not yet cleared. */
  datatype Spent = NoMember | SpentMember(b: ControlBlock, k: nat)

  ghost predicate IsSpent(spent: Spent, b: ControlBlock) {
    spent.SpentMember? && spent.b == b
  }

  /** The snapshot with that member empty: its handle counts no more. */
  ghost function Cleared(cells: Cells, spent: Spent): (r: Cells)
    ensures r.Keys == cells.Keys
    ensures spent.NoMember? ==> r == cells
  {
    if spent.SpentMember? && spent.b in cells && spent.k < |cells[spent.b].members| then
      cells[spent.b := cells[spent.b].(members := cells[spent.b].members[spent.k := Null])]
    else
      cells
  }

  lemma ClearedAt(cells: Cells, spent: Spent, b: ControlBlock)
    requires b in cells
    ensures Cleared(cells, spent)[b].(members := cells[b].members) == cells[b]
    ensures !IsSpent(spent, b) ==> Cleared(cells, spent)[b] == cells[b]
  {
  }

  lemma ClearedUpdate(cells: Cells, spent: Spent, b: ControlBlock, cell: Cell)
    requires b in cells && (cell.members == cells[b].members || !IsSpent(spent, b))
    ensures var r := Cleared(cells, spent);
            Cleared(cells[b := cell], spent) ==
              r[b := if IsSpent(spent, b) then cell.(members := r[b].members) else cell]
  {
  }

  lemma ClearedWithout(cells: Cells, spent: Spent, b: ControlBlock)
    requires b in cells
    ensures Cleared(cells - {b}, spent) == Cleared(cells, spent) - {b}
  {
  }

  /** The object that has the spent member is owned by one of the handles `owed`, or by a cycle. */
  ghost predicate Anchored(cells: Cells, owed: multiset<Handle>, spent: Spent) {
    spent.SpentMember? ==> exists path: seq<ControlBlock> :: Owned(cells, owed, path, spent.b)
  }

  lemma AnchorInUse(cells: Cells, owed: multiset<Handle>, spent: Spent)
    requires Inv(cells, owed) && Anchored(cells, owed, spent)
    ensures spent.SpentMember? ==> spent.b in cells && cells[spent.b].use > 0
  {
    if spent.SpentMember? {
      var path: seq<ControlBlock> :| Owned(cells, owed, path, spent.b);
      OnWayInUse(cells, owed, path, spent.b, |path| - 1);
    }
  }

  lemma AnchorKept(a: Cells, z: Cells, owed: multiset<Handle>, spent: Spent)
    requires Inv(a, owed) && Anchored(a, owed, spent)
    requires forall x :: x in a && a[x].use > 0 ==> x in z && z[x].members == a[x].members
    ensures Anchored(z, owed, spent)
  {
    if spent.SpentMember? {
      var path: seq<ControlBlock> :| Owned(a, owed, path, spent.b);
      OwnedKept(a, owed, z, path, spent.b);
    }
  }

  lemma AnchorOutlasts(a: Cells, z: Cells, owed: multiset<Handle>, spent: Spent)
    requires Evolves(a, z) && Keeps(a, z) && Inv(z, owed) && Anchored(a, owed, spent)
    ensures Anchored(z, owed, spent)
  {
    if spent.SpentMember? {
      var path: seq<ControlBlock> :| Owned(a, owed, path, spent.b);
      OwnedOutlasts(a, z, owed, path, spent.b);
    }
  }

  /** The last strong release of an object neither takes the anchor away nor ends the anchored object. */
  lemma LastIsNotAnchor(a: Cells, z: Cells, owed: multiset<Handle>, b: ControlBlock, spent: Spent)
    requires Inv(a, owed) && Strong(b) in owed && b in a && a[b].use == 1
    requires Anchored(a, owed - multiset{Strong(b)}, spent)
    requires z.Keys == a.Keys && forall x :: x in a ==> z[x].members == a[x].members
    ensures Anchored(z, owed - multiset{Strong(b)}, spent) && !IsSpent(spent, b)
  {
    if spent.SpentMember? {
      var path: seq<ControlBlock> :| Owned(a, owed - multiset{Strong(b)}, path, spent.b);
      if spent.b == b { LastIsNotOwned(a, owed, b, path); }
      if SelfHeld(a, path) { assert SelfHeld(z, path); }
      assert Owned(z, owed - multiset{Strong(b)}, path, spent.b);
    }
  }

  /** The last strong handle to an object is no way to it any more once it is being released. */
  lemma LastIsNotOwned(cells: Cells, owed: multiset<Handle>, b: ControlBlock, path: seq<ControlBlock>)
    requires Inv(cells, owed) && Strong(b) in owed && b in cells && cells[b].use == 1
    ensures !Owned(cells, owed - multiset{Strong(b)}, path, b)
  {
    CountedIff(cells, owed);
    if Owned(cells, owed - multiset{Strong(b)}, path, b) {
      assert cells[b].use == Handles(cells, owed)[Strong(b)];
      if |path| > 1 {
        HeldSplit(cells, path[|path| - 2]);
      } else {
        HeldSplit(cells, b);
      }
      assert false;
    }
  }

  /** Taking a handle that is not strong out of an object leaves all ways to that object. */
  lemma StillOwned(cells: Cells, owed: multiset<Handle>, b: ControlBlock, k: nat)
    requires Inv(cells, owed) && Quiet(cells) && b in cells && cells[b].use > 0
    requires k < |cells[b].members| && !cells[b].members[k].Strong?
    ensures var cleared := cells[b := cells[b].(members := cells[b].members[k := Null])];
            exists path: seq<ControlBlock> :: Owned(cleared, owed, path, b)
  {
    var cleared := cells[b := cells[b].(members := cells[b].members[k := Null])];
    InUseIffOwned(cells, owed, b);
    var path: seq<ControlBlock> :| Owned(cells, owed, path, b);
    forall i | 0 < i < |path|
      ensures Strong(path[i]) in cleared[path[i - 1]].members
    {
      OtherMember(cells, b, k, path[i - 1], Strong(path[i]));
    }
    if SelfHeld(cells, path) {
      var i :| 0 <= i < |path| && Strong(path[0]) in cells[path[i]].members;
      OtherMember(cells, b, k, path[i], Strong(path[0]));
      assert SelfHeld(cleared, path);
    }
    assert Owned(cleared, owed, path, b);
  }

  lemma OtherMember(cells: Cells, b: ControlBlock, k: nat, x: ControlBlock, h: Handle)
    requires b in cells && k < |cells[b].members| && x in cells && h in cells[x].members && h != cells[b].members[k]
    ensures h in cells[b := cells[b].(members := cells[b].members[k := Null])][x].members
  {
    var i :| 0 <= i < |cells[x].members| && cells[x].members[i] == h;
    assert cells[b := cells[b].(members := cells[b].members[k := Null])][x].members[i] == h;
  }

  /** A strong handle that stands in a member although its count has been given up belongs to no exact counts: when the
      object that has it is destroyed, it is released a second time. */
  lemma SpentIsMiscounted(cells: Cells, owed: multiset<Handle>, b: ControlBlock, k: nat, c: ControlBlock)
    requires Inv(cells, owed) && b in cells && k < |cells[b].members| && cells[b].members[k] == Null && c in cells
    ensures !Inv(cells[b := cells[b].(members := cells[b].members[k := Strong(c)])], owed)
  {
    var ms := cells[b].members;
    var spent := cells[b := cells[b].(members := ms[k := Strong(c)])];
    CountedIff(cells, owed);
    CountedIff(spent, owed);
    HeldUpdate(cells, b, spent[b]);
    OneMore(Held(cells), Held(spent), multiset(ms), multiset(ms[k := Strong(c)]), owed, Strong(c));
    assert spent[c].use == cells[c].use;
  }

  lemma OneMore(a: multiset<Handle>, a': multiset<Handle>, m: multiset<Handle>, m': multiset<Handle>,
      owed: multiset<Handle>, h: Handle)
    requires a' + m == a + m' && m'[h] == m[h] + 1
    ensures (a' + owed)[h] == (a + owed)[h] + 1
  {
    assert (a' + m)[h] == (a + m')[h];
  }

  /** `Reset` on a strong member releases it before it clears it. However the release goes, the object that has the
      member outlasts it if and only if it is owned without it; otherwise its destructor meets the spent member. */
  lemma OutlastsResetIffOwned(a: Cells, z: Cells, owed: multiset<Handle>, b: ControlBlock, k: nat)
    requires Inv(a, owed) && Quiet(a) && b in a && a[b].use > 0 && k < |a[b].members| && a[b].members[k].Strong?
    requires var v := Cleared(a, SpentMember(b, k)); Evolves(v, z) && Keeps(v, z) && Inv(z, owed) && Quiet(z)
    ensures b in z && z[b].use > 0 <==> Anchored(Cleared(a, SpentMember(b, k)), owed, SpentMember(b, k))
    ensures b in z && z[b].use > 0 ==> z[b].members == a[b].members[k := Null]
  {
    var v := Cleared(a, SpentMember(b, k));
    SurvivorsAreOwned(v, z, owed, b);
    if b in z && z[b].use > 0 { SurvivesAsItWas(v, z, b); }
  }

  /** An object whose only strong handle is its own member: the counts are exact, but once its destruction has begun by
      releasing that member, which is still there, no handles outside could make them so. */
  lemma SelfOwnerReset(b: ControlBlock, owed: multiset<Handle>)
    ensures Inv(map[b := Cell(1, 0, false, [Strong(b)], 0)], multiset{})
    ensures forall path: seq<ControlBlock> :: !Owned(map[b := Cell(1, 0, false, [Null], 0)], multiset{}, path, b)
    ensures !Inv(map[b := Cell(0, 0, true, [Strong(b)], 1)], owed)
  {
    var alive := map[b := Cell(1, 0, false, [Strong(b)], 0)];
    var dying := map[b := Cell(0, 0, true, [Strong(b)], 1)];
    HeldSplit(alive, b);
    HeldSplit(dying, b);
    assert alive - {b} == map[] && dying - {b} == map[];
    CountedIff(alive, multiset{});
    CountedIff(dying, owed);
    assert Handles(dying, owed)[Strong(b)] > 0;
  }
}
