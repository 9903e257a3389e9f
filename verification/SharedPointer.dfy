/** The reference-counting code of the smart pointers, with the destruction of objects that own smart pointers. */
module SharedPointers {
  import opened ReferenceCounts

  /** Where a smart pointer lives: it is a variable, or a member of a managed object. */
  datatype Loc = Var(i: nat) | Member(b: ControlBlock, k: nat)

  /** The free store with its live control blocks, and the smart pointers that no managed object owns. */
  class Memory {
    ghost var live: set<ControlBlock>
    /** All blocks that were ever made, freed ones included. */
    ghost var made: set<ControlBlock>
    var vars: seq<Handle>

    constructor ()
      ensures Valid() && vars == [] && live == made == {}
    {
      live, made, vars := {}, {}, [];
      new;
      assert View() == map[];
      NothingYet();
    }

    ghost function View(): Cells
      reads this`live, live
    {
      map b | b in live :: Cell(b.useCnt, b.weakCnt, b.isDestroying, b.members, b.deleterRuns)
    }

    /** The snapshot that the counts go by: a handle that has been released counts as cleared. */
    ghost function Seen(spent: Spent): (r: Cells)
      reads this`live, live
      ensures r.Keys == live
    {
      Cleared(View(), spent)
    }

    lemma SeenIsAll()
      ensures Seen(NoMember) == View()
    {
    }

    lemma SeenAt(b: ControlBlock, spent: Spent)
      requires b in live
      ensures b in Seen(spent)
      ensures Seen(spent)[b] == Cell(b.useCnt, b.weakCnt, b.isDestroying, Seen(spent)[b].members, b.deleterRuns)
      ensures !IsSpent(spent, b) ==> Seen(spent)[b].members == b.members
    {
      ClearedAt(View(), spent, b);
    }

    /** The counts are exact when `owed` are the handles outside managed objects. */
    ghost predicate Ok(owed: multiset<Handle>)
      reads this`live, live
    {
      Inv(View(), owed)
    }

    /** The object of a freed block has been deleted, exactly once. */
    ghost predicate Gone()
      reads this`live, this`made, made`deleterRuns
    {
      live <= made && forall b :: b in made && b !in live ==> b.deleterRuns == 1
    }

    /** Between two operations of the program: the variables are the handles outside, and no destructor is running. */
    ghost predicate Valid()
      reads this, live, made`deleterRuns
    {
      Ok(multiset(vars)) && Quiet(View()) && Gone()
    }

    /** An object has been deleted exactly once if its block is freed or no longer in use, and not at all otherwise. */
    lemma DeletedIffUnused(b: ControlBlock)
      requires Valid() && b in made
      ensures b.deleterRuns == if b in live && b.useCnt > 0 then 0 else 1
    {
      if b in live {
        DeletedOnce(View(), multiset(vars), b);
        assert View()[b].use == b.useCnt;
      }
    }

    /** No object dies, and no block goes, without its deleter having run exactly once. */
    ghost predicate UnusedDeleted()
      reads this`live, this`made, live, made`deleterRuns
    {
      forall b :: b in made && (b !in live || b.useCnt == 0) ==> b.deleterRuns == 1
    }

    lemma AreDeleted(owed: multiset<Handle>, spent: Spent)
      requires Inv(Seen(spent), owed) && Gone()
      ensures UnusedDeleted()
    {
      forall b | b in live && b.useCnt == 0
        ensures b.deleterRuns == 1
      {
        DeletedOnce(Seen(spent), owed, b);
        assert Seen(spent)[b].use == b.useCnt;
      }
    }

    // ----- control_block.h, one field at a time

    method IncUse(b: ControlBlock)
      requires b in live
      modifies b`useCnt
      ensures View() == old(View()[b := View()[b].(use := View()[b].use + 1)])
    {
      b.useCnt := b.useCnt + 1;
    }

    method IncWeak(b: ControlBlock)
      requires b in live
      modifies b`weakCnt
      ensures View() == old(View()[b := View()[b].(weak := View()[b].weak + 1)])
    {
      b.weakCnt := b.weakCnt + 1;
    }

    method DecUse(b: ControlBlock, ghost spent: Spent)
      requires b in live && b.useCnt > 0
      modifies b`useCnt
      ensures Seen(spent) == old(Seen(spent)[b := Seen(spent)[b].(use := Seen(spent)[b].use - 1)])
    {
      hide Cleared;
      ghost var v := View();
      ClearedAt(v, spent, b);
      ClearedUpdate(v, spent, b, v[b].(use := v[b].use - 1));
      b.useCnt := b.useCnt - 1;
      assert View() == v[b := v[b].(use := v[b].use - 1)];
    }

    method DecWeak(b: ControlBlock, ghost spent: Spent)
      requires b in live && b.weakCnt > 0
      modifies b`weakCnt
      ensures Seen(spent) == old(Seen(spent)[b := Seen(spent)[b].(weak := Seen(spent)[b].weak - 1)])
    {
      hide Cleared;
      ghost var v := View();
      ClearedAt(v, spent, b);
      ClearedUpdate(v, spent, b, v[b].(weak := v[b].weak - 1));
      b.weakCnt := b.weakCnt - 1;
      assert View() == v[b := v[b].(weak := v[b].weak - 1)];
    }

    /** The flag goes up, and the deleter is called. */
    method StartDestroying(b: ControlBlock, ghost spent: Spent)
      requires b in live && Gone()
      modifies b`isDestroying, b`deleterRuns
      ensures Gone()
      ensures Seen(spent) == old(Seen(spent)[b := Seen(spent)[b].(dying := true, runs := Seen(spent)[b].runs + 1)])
    {
      hide Cleared;
      ghost var v := View();
      ClearedAt(v, spent, b);
      ClearedUpdate(v, spent, b, v[b].(dying := true, runs := v[b].runs + 1));
      b.isDestroying := true;
      b.deleterRuns := b.deleterRuns + 1;
      assert View() == v[b := v[b].(dying := true, runs := v[b].runs + 1)];
    }

    method StopDestroying(b: ControlBlock, ghost spent: Spent)
      requires b in live
      modifies b`isDestroying
      ensures Seen(spent) == old(Seen(spent)[b := Seen(spent)[b].(dying := false)])
    {
      hide Cleared;
      ghost var v := View();
      ClearedAt(v, spent, b);
      ClearedUpdate(v, spent, b, v[b].(dying := false));
      b.isDestroying := false;
      assert View() == v[b := v[b].(dying := false)];
    }

    method PopMember(b: ControlBlock, ghost spent: Spent) returns (h: Handle)
      requires b in live && b.members != [] && !IsSpent(spent, b)
      modifies b`members
      ensures var ms := old(b.members);
              Seen(spent) == old(Seen(spent))[b := old(Seen(spent))[b].(members := ms[..|ms| - 1])] && h == ms[|ms| - 1]
    {
      hide Cleared;
      ghost var v := View();
      ClearedAt(v, spent, b);
      ClearedUpdate(v, spent, b, v[b].(members := b.members[..|b.members| - 1]));
      h := b.members[|b.members| - 1];
      b.members := b.members[..|b.members| - 1];
      assert View() == v[b := v[b].(members := b.members)];
    }

    /** Freeing a block: it is live no more, and nothing may look at it again. */
    ghost method DestroyBlock(b: ControlBlock, spent: Spent)
      requires b in live && Gone() && b.deleterRuns == 1
      modifies this`live
      ensures Gone()
      ensures live == old(live) - {b} && Seen(spent) == old(Seen(spent)) - {b}
    {
      hide Cleared;
      ghost var v := View();
      ClearedWithout(v, spent, b);
      live := live - {b};
      assert View() == v - {b};
    }

    // ----- control_block.h

    method AddRef(b: ControlBlock, ghost owed: multiset<Handle>)
      requires Ok(owed) && b in live && b.useCnt > 0
      modifies b`useCnt
      ensures Ok(owed + multiset{Strong(b)}) && b.useCnt == old(b.useCnt) + 1
      ensures View() == old(View()[b := View()[b].(use := View()[b].use + 1)])
    {
      ghost var v := View();
      StrongAdded(v, owed, b);
      IncUse(b);
      assert View()[b].use == v[b].use + 1;
    }

    method AddWeak(b: ControlBlock, ghost owed: multiset<Handle>)
      requires Ok(owed) && b in live
      modifies b`weakCnt
      ensures Ok(owed + multiset{Weak(b)})
      ensures View() == old(View()[b := View()[b].(weak := View()[b].weak + 1)])
    {
      WeakAdded(View(), owed, b);
      IncWeak(b);
    }

    method ReleaseWeak(b: ControlBlock, ghost owed: multiset<Handle>, ghost spent: Spent)
      requires Inv(Seen(spent), owed) && Gone() && Weak(b) in owed
      modifies this`live, b`weakCnt
      ensures Inv(Seen(spent), owed - multiset{Weak(b)}) && Gone() && live <= old(live)
      ensures Evolves(old(Seen(spent)), Seen(spent)) && Keeps(old(Seen(spent)), Seen(spent))
    {
      hide Keeps, Evolves, Inv, Gone, View, Seen;
      ghost var v := Seen(spent);
      Referenced(v, owed, Weak(b));
      SeenAt(b, spent);
      WeakDropped(v, owed, b);
      DecWeak(b, spent);
      SeenAt(b, spent);
      if b.weakCnt == 0 && b.useCnt == 0 && !b.isDestroying {
        ghost var w := Seen(spent);
        DeletedOnce(v, owed, b);
        DestroyBlock(b, spent);
        assert w - {b} == v - {b};
      }
      WeakDropEvolves(v, Seen(spent), b);
      SelfHeldKept(v, owed, Seen(spent));
    }

    method Release(b: ControlBlock, ghost owed: multiset<Handle>, ghost spent: Spent)
      requires Inv(Seen(spent), owed) && Gone() && Strong(b) in owed
      requires Anchored(Seen(spent), owed - multiset{Strong(b)}, spent)
      modifies this`live, live
      ensures Inv(Seen(spent), owed - multiset{Strong(b)}) && Gone() && UnusedDeleted() && live <= old(live)
      ensures Evolves(old(Seen(spent)), Seen(spent)) && Keeps(old(Seen(spent)), Seen(spent))
      decreases |InUse(Seen(spent))|, 0
    {
      hide Keeps, Evolves, Inv, Gone, UnusedDeleted, Anchored, View, Seen;
      ghost var v := Seen(spent);
      Referenced(v, owed, Strong(b));
      SeenAt(b, spent);
      DecUse(b, spent);
      SeenAt(b, spent);
      if b.useCnt == 0 {
        ghost var w := v[b := v[b].(use := 0, dying := true, runs := v[b].runs + 1)];
        LastStrongDropped(v, owed, b);
        LessInUse(v, w, b);
        LastIsNotAnchor(v, w, owed, b, spent);
        assert w == Seen(spent)[b := Seen(spent)[b].(dying := true, runs := Seen(spent)[b].runs + 1)];
        ghost var c := Destroy(b, owed - multiset{Strong(b)}, spent, w);
        ReleaseEvolves(v, w[b := w[b].(members := [])], c, Seen(spent), b);
        SelfHeldKept(v, owed, w);
        KeepsOn(v, w, Seen(spent));
      } else {
        StrongDropped(v, owed, b);
        StrongDropEvolves(v, b);
        SelfHeldKept(v, owed, Seen(spent));
      }
      AreDeleted(owed - multiset{Strong(b)}, spent);
    }

    /** What follows when the last strong reference is gone: the object is destroyed, then perhaps the block. */
    method Destroy(b: ControlBlock, ghost owed: multiset<Handle>, ghost spent: Spent, ghost w: Cells)
      returns (ghost c: Cells)
      requires b in live && b.useCnt == 0
      requires w == Seen(spent)[b := Seen(spent)[b].(dying := true, runs := Seen(spent)[b].runs + 1)]
      requires Inv(w, owed) && Gone() && Anchored(w, owed, spent)
      modifies this`live, live
      ensures Inv(Seen(spent), owed) && Gone() && live <= old(live)
      ensures Evolves(w[b := w[b].(members := [])], c) && Ended(c, Seen(spent), b) && Keeps(w, Seen(spent))
      decreases |InUse(w)|, 4
    {
      hide Evolves, Keeps, Inv, InUse, Gone, Anchored, View, Seen;
      SeenAt(b, spent);
      StartDestroying(b, spent);
      SeenAt(b, spent);
      DestroyObject(b, owed, spent);
      c := Seen(spent);
      SeenAt(b, spent);
      DestructionEnds(c, owed, b);
      DeletedOnce(c, owed, b);
      StopDestroying(b, spent);
      if b.weakCnt == 0 {
        ghost var d := Seen(spent);
        DestroyBlock(b, spent);
        assert d - {b} == c - {b};
      }
      SelfHeldKept(c, owed, Seen(spent));
      KeepsOn(w, c, Seen(spent));
    }

    /** The destructor of one smart pointer. */
    method DestroyHandle(h: Handle, ghost owed: multiset<Handle>, ghost spent: Spent)
      requires Inv(Seen(spent), owed) && Gone() && h in owed && Anchored(Seen(spent), owed - multiset{h}, spent)
      modifies this`live, live
      ensures Inv(Seen(spent), owed - multiset{h}) && Gone() && UnusedDeleted() && live <= old(live)
      ensures Evolves(old(Seen(spent)), Seen(spent)) && Keeps(old(Seen(spent)), Seen(spent))
      decreases |InUse(Seen(spent))|, 1
    {
      if h != Null { Referenced(Seen(spent), owed, h); }
      match h {
        case Null => NullDropped(Seen(spent), owed);
        case Strong(cb) => Release(cb, owed, spent);
        case Weak(cb) => ReleaseWeak(cb, owed, spent);
      }
      AreDeleted(owed - multiset{h}, spent);
    }

    /** The destructor of the managed object: its smart-pointer members go, the last one first. */
    method DestroyObject(b: ControlBlock, ghost owed: multiset<Handle>, ghost spent: Spent)
      requires Inv(Seen(spent), owed) && Gone() && b in live && b.isDestroying && b.useCnt == 0
      requires Anchored(Seen(spent), owed, spent)
      modifies this`live, live
      ensures Inv(Seen(spent), owed) && Gone() && live <= old(live)
      ensures b in live && b.isDestroying && b.useCnt == 0 && b.members == [] && Seen(spent)[b].members == []
      ensures Evolves(old(Seen(spent)[b := Seen(spent)[b].(members := [])]), Seen(spent))
      ensures Keeps(old(Seen(spent)), Seen(spent))
      decreases |InUse(Seen(spent))|, 3
    {
      hide Keeps, Evolves, Anchored, Inv, InUse, Gone, View, Seen;
      ghost var v := Seen(spent);
      SeenAt(b, spent);
      AnchorInUse(v, owed, spent);
      SelfHeldKept(v, owed, v);
      EvolvesSame(v);
      assert v[b := v[b].(members := b.members)] == v;
      while b.members != []
        invariant Inv(Seen(spent), owed) && Gone() && live <= old(live) && b in live && b.isDestroying && b.useCnt == 0
        invariant Anchored(Seen(spent), owed, spent) && Seen(spent)[b].members == b.members
        invariant Evolves(v[b := v[b].(members := b.members)], Seen(spent)) && Keeps(v, Seen(spent))
        invariant |InUse(Seen(spent))| <= |InUse(v)|
        decreases |b.members|
      {
        ghost var w := Seen(spent);
        DestroyLast(b, owed, spent);
        FewerMembers(v, w, b, b.members);
        EvolvesOn(v[b := v[b].(members := b.members)], w[b := w[b].(members := b.members)], Seen(spent));
        KeepsOn(v, w, Seen(spent));
      }
    }

    /** The last remaining member of a dying object goes. */
    method DestroyLast(b: ControlBlock, ghost owed: multiset<Handle>, ghost spent: Spent)
      requires Inv(Seen(spent), owed) && Gone() && b in live && b.isDestroying && b.useCnt == 0 && b.members != []
      requires Anchored(Seen(spent), owed, spent)
      modifies this`live, live
      ensures Inv(Seen(spent), owed) && Gone() && live <= old(live) && b in live && b.isDestroying && b.useCnt == 0
      ensures Anchored(Seen(spent), owed, spent) && b.members == old(b.members)[..|old(b.members)| - 1]
      ensures Seen(spent)[b].members == b.members
      ensures Evolves(old(Seen(spent))[b := old(Seen(spent))[b].(members := b.members)], Seen(spent))
      ensures Keeps(old(Seen(spent)), Seen(spent)) && |InUse(Seen(spent))| <= |InUse(old(Seen(spent)))|
      decreases |InUse(Seen(spent))|, 2
    {
      hide Keeps, Evolves, Anchored, Inv, InUse, Gone, View, Seen;
      ghost var v := Seen(spent);
      SeenAt(b, spent);
      AnchorInUse(v, owed, spent);
      MemberReleased(v, owed, b);
      var h := PopMember(b, spent);
      SeenAt(b, spent);
      ghost var w := Seen(spent);
      SelfHeldKept(v, owed, w);
      AnchorKept(v, w, owed, spent);
      assert owed + multiset{h} - multiset{h} == owed;
      SameInUse(v, b, b.members);
      DestroyHandle(h, owed + multiset{h}, spent);
      EvolvesSame(w);
      EvolvesOn(w, w, Seen(spent));
      StaysDying(w, Seen(spent), b);
      AnchorOutlasts(w, Seen(spent), owed, spent);
      SeenAt(b, spent);
      KeepsOn(v, w, Seen(spent));
    }

    // ----- smart_shared_ptr.h

    /** The place exists: the variable does, or the object that has the member is in use. */
    ghost predicate Exists(l: Loc)
      reads this, live
    {
      match l
      case Var(i) => i < |vars|
      case Member(b, k) => b in live && b.useCnt > 0 && k < |b.members|
    }

    function Value(l: Loc): Handle
      requires Exists(l)
      reads this, live
    {
      match l
      case Var(i) => vars[i]
      case Member(b, k) => b.members[k]
    }

    /** The handle at an existing place refers to a live block, and a strong one to an object in use. */
    lemma ValueIsSafe(l: Loc)
      requires Valid() && Exists(l) && Value(l) != Null
      ensures Value(l).cb in live
      ensures Value(l).Strong? ==> Value(l).cb.useCnt > 0
      ensures Value(l).cb.deleterRuns == if Value(l).cb.useCnt > 0 then 0 else 1
      ensures Value(l).Weak? ==> Value(l).cb.weakCnt > 0
    {
      HandleIsSafe(View(), multiset(vars), Value(l), if l.Member? then l.b else Value(l).cb);
    }

    /** `SharedPtr(new T)`, for an object with `n` empty smart-pointer members. */
    method MakeShared(n: nat) returns (b: ControlBlock)
      requires Valid()
      modifies this
      ensures Valid() && vars == old(vars) + [Strong(b)]
      ensures fresh(b) && live == old(live) + {b} && made == old(made) + {b}
      ensures b.useCnt == 1 && |b.members| == n && forall i :: 0 <= i < n ==> b.members[i] == Null
    {
      ghost var v, owed := View(), multiset(vars);
      var members := seq(n, i => Null);
      b := new ControlBlock(members);
      NullsAdded(v, owed, multiset(members));
      BlockMade(v, owed, b, members);
      live, made, vars := live + {b}, made + {b}, vars + [Strong(b)];
      assert multiset(vars) == owed + multiset{Strong(b)};
      assert View() == v[b := Cell(1, 0, false, members, 0)];
    }

    /** Nothing but counts may have changed, and no object's life has begun or ended. */
    twostate predicate ObjectsKept()
      reads this, live
    {
      && live == old(live) && made == old(made)
      && forall b :: b in live ==>
           b.members == old(b.members) && b.deleterRuns == old(b.deleterRuns) && (b.useCnt > 0 <==> old(b.useCnt) > 0)
    }

    /** The objects in use were in use before, and have the members that they had. */
    twostate predicate SurvivorsKept()
      reads this, live
    {
      && live <= old(live) && made == old(made)
      && forall b :: b in live && b.useCnt > 0 ==> old(b.useCnt) > 0 && b.members == old(b.members)
    }

    /** `AddRef` or `AddWeak` of a pointer that may be empty: the counts for one more handle. */
    method Share(h: Handle)
      requires Valid() && (h != Null ==> h.cb in live) && (h.Strong? ==> h.cb.useCnt > 0)
      modifies live
      ensures Ok(multiset(vars) + multiset{h}) && Quiet(View()) && Gone()
      ensures View() == Acquired(old(View()), h) && ObjectsKept()
    {
      hide Inv, Gone;
      match h {
        case Null => NullsAdded(View(), multiset(vars), multiset{Null});
        case Strong(b) => AddRef(b, multiset(vars));
        case Weak(b) => AddWeak(b, multiset(vars));
      }
    }

    /** Copying a handle into a temporary. */
    method Acquire(src: Loc) returns (h: Handle)
      requires Valid() && Exists(src)
      modifies live
      ensures h == old(Value(src)) && Ok(multiset(vars) + multiset{h}) && Quiet(View()) && Gone()
      ensures View() == Acquired(old(View()), h) && ObjectsKept()
    {
      hide Inv, Gone, Quiet, Acquired;
      h := Value(src);
      if h != Null { ValueIsSafe(src); }
      Share(h);
    }

    /** Writing a temporary's handle to a place, and keeping what was there: `std::exchange`, or one side of a swap. */
    method Exchange(dst: Loc, h: Handle) returns (was: Handle)
      requires Exists(dst) && Ok(multiset(vars) + multiset{h}) && Quiet(View()) && Gone()
      modifies this`vars, if dst.Member? then {dst.b} else {}
      ensures Ok(multiset(vars) + multiset{was}) && Quiet(View()) && Gone()
      ensures was == old(Value(dst)) && vars == VarsWritten(old(vars), dst, h)
      ensures View() == Written(old(View()), dst, h)
      ensures dst.Member? ==> dst.b.useCnt == old(dst.b.useCnt) && dst.b.members == old(dst.b.members)[dst.k := h]
    {
      hide Inv, Gone;
      ghost var v := View();
      was := Value(dst);
      match dst {
        case Var(i) =>
          vars := vars[i := h];
          assert multiset(vars) + multiset{was} == old(multiset(vars)) + multiset{h};
        case Member(b, k) =>
          MemberExchanged(v, multiset(vars) + multiset{h}, b, k, h);
          b.members := b.members[k := h];
          assert View() == v[b := v[b].(members := b.members)];
          assert multiset(vars) + multiset{h} - multiset{h} == multiset(vars);
      }
    }

    /** The destructor of a temporary. */
    method Discard(h: Handle)
      requires Ok(multiset(vars) + multiset{h}) && Quiet(View()) && Gone()
      modifies this`live, live
      ensures Valid() && UnusedDeleted() && SurvivorsKept() && Evolves(old(View()), View())
      ensures Keeps(old(View()), View()) && SameCycles(old(View()), View())
      ensures OwnedSurvive(old(View()), View(), multiset(vars))
    {
      hide Inv, Keeps, Evolves, Seen, Gone, Quiet, UnusedDeleted, OwnedSurvive, SameCycles;
      ghost var v := View();
      SeenIsAll();
      DestroyHandle(h, multiset(vars) + multiset{h}, NoMember);
      SeenIsAll();
      assert multiset(vars) + multiset{h} - multiset{h} == multiset(vars);
      StaysQuiet(v, View());
      CyclesKept(v, View(), multiset(vars));
      ExactSurvivors(v, View(), multiset(vars));
      forall b | b in live && b.useCnt > 0
        ensures old(b.useCnt) > 0 && b.members == old(b.members)
      {
        SurvivesAsItWas(v, View(), b);
      }
    }

    /** The copy constructors of both pointers. */
    method Copy(src: Loc)
      requires Valid() && Exists(src)
      modifies this`vars, live
      ensures Valid() && ObjectsKept() && vars == old(vars) + [old(Value(src))]
      ensures View() == Acquired(old(View()), old(Value(src)))
    {
      var h := Acquire(src);
      vars := vars + [h];
    }

    /** `WeakPtr(const SharedPtr &)`. */
    method Observe(src: Loc)
      requires Valid() && Exists(src) && !Value(src).Weak?
      modifies this`vars, live
      ensures Valid() && ObjectsKept()
      ensures var h := old(if Value(src) == Null then Null else Weak(Value(src).cb));
              vars == old(vars) + [h] && View() == Acquired(old(View()), h)
    {
      hide Inv, Gone, Quiet, Acquired;
      var h := Value(src);
      if h != Null { ValueIsSafe(src); }
      h := if h == Null then Null else Weak(h.cb);
      Share(h);
      vars := vars + [h];
    }

    /** `WeakPtr::Lock`: a new owner exactly when the object has not been destroyed. */
    method Lock(src: Loc)
      requires Valid() && Exists(src) && !Value(src).Strong?
      modifies this`vars, live
      ensures Valid() && ObjectsKept()
      ensures var h :=
                  old(if Value(src) != Null && Value(src).cb.deleterRuns == 0 then Strong(Value(src).cb) else Null);
              vars == old(vars) + [h] && View() == Acquired(old(View()), h)
    {
      hide Inv, Gone, Quiet, Acquired;
      var h := Value(src);
      if h != Null { ValueIsSafe(src); }
      var useCount := if h == Null then 0 else h.cb.useCnt;
      h := if useCount == 0 then Null else Strong(h.cb);
      Share(h);
      vars := vars + [h];
    }

    /** The move constructors: the source becomes empty. */
    method Move(src: Loc)
      requires Valid() && Exists(src)
      modifies this`vars, if src.Member? then {src.b} else {}
      ensures Valid() && vars == old(if src.Var? then vars[src.i := Null] else vars) + [old(Value(src))]
      ensures View() == Written(old(View()), src, Null) && Exists(src) && Value(src) == Null
    {
      NullsAdded(View(), multiset(vars), multiset{Null});
      var h := Exchange(src, Null);
      vars := vars + [h];
    }

    /** Copy assignment, by copy and swap: what the target held is released last. */
    method Assign(dst: Loc, src: Loc)
      requires Valid() && Exists(src) && Exists(dst)
      modifies this, live
      ensures Valid() && UnusedDeleted() && live <= old(live) && made == old(made)
      ensures vars == if dst.Var? then old(vars)[dst.i := old(Value(src))] else old(vars)
      ensures var v := Written(Acquired(old(View()), old(Value(src))), dst, old(Value(src)));
              Evolves(v, View()) && Keeps(v, View()) && OwnedSurvive(v, View(), multiset(vars))
      ensures forall b :: b in live && b.useCnt > 0 ==>
                old(b.useCnt) > 0 &&
                b.members == if dst.Member? && b == dst.b then old(b.members)[dst.k := old(Value(src))]
                             else old(b.members)
    {
      hide Inv, Gone, Quiet, UnusedDeleted, Keeps, Evolves, OwnedSurvive, SameCycles;
      var h := Acquire(src);
      var was := Exchange(dst, h);
      Discard(was);
    }

    /** The first half of a move assignment: the source's handle goes to the target, and the target's comes out. */
    method Transfer(dst: Loc, src: Loc) returns (was: Handle)
      requires Valid() && Exists(src) && Exists(dst)
      modifies this`vars, (if src.Member? then {src.b} else {}) + (if dst.Member? then {dst.b} else {})
      ensures Ok(multiset(vars) + multiset{was}) && Quiet(View()) && Gone()
      ensures vars == VarsWritten(VarsWritten(old(vars), src, Null), dst, old(Value(src)))
      ensures View() == Written(Written(old(View()), src, Null), dst, old(Value(src)))
    {
      NullsAdded(View(), multiset(vars), multiset{Null});
      var h := Exchange(src, Null);
      was := Exchange(dst, h);
    }

    /** Move assignment: the source becomes empty unless it is the target; what the target held is released last. */
    method MoveAssign(dst: Loc, src: Loc)
      requires Valid() && Exists(src) && Exists(dst)
      modifies this, live
      ensures Valid() && UnusedDeleted() && live <= old(live) && made == old(made)
      ensures vars == VarsWritten(VarsWritten(old(vars), src, Null), dst, old(Value(src)))
      ensures var v := Written(Written(old(View()), src, Null), dst, old(Value(src)));
              && Evolves(v, View()) && Keeps(v, View()) && OwnedSurvive(v, View(), multiset(vars))
              && forall b :: b in live && b.useCnt > 0 ==> b in v && v[b].use > 0 && b.members == v[b].members
    {
      var was := Transfer(dst, src);
      ghost var v := View();
      Discard(was);
      forall b | b in live && b.useCnt > 0
        ensures b in v && v[b].use > 0 && b.members == v[b].members
      {
        SurvivesAsItWas(v, View(), b);
      }
    }

    /** The object that has this member stays owned when the member is empty. */
    ghost predicate OwnerStays(l: Loc)
      requires Exists(l)
      reads this, live
    {
      l.Member? ==> exists path: seq<ControlBlock> :: Owned(Written(View(), l, Null), multiset(vars), path, l.b)
    }

    lemma OthersMayBeCleared(b: ControlBlock, k: nat)
      requires Valid() && Exists(Member(b, k)) && !Value(Member(b, k)).Strong?
      ensures OwnerStays(Member(b, k))
    {
      StillOwned(View(), multiset(vars), b, k);
      var cleared := View()[b := View()[b].(members := b.members[k := Null])];
      var path: seq<ControlBlock> :| Owned(cleared, multiset(vars), path, b);
      assert Written(View(), Member(b, k), Null) == cleared;
    }

    /** `Reset`: the handle is released, and only then is the pointer cleared. The object that has the pointer must
        outlast the release, so it must be owned without it; weak and empty members need not care. */
    method Reset(l: Loc)
      requires Valid() && Exists(l) && (Value(l).Strong? ==> OwnerStays(l))
      modifies this, live
      ensures Valid() && UnusedDeleted() && live <= old(live) && made == old(made)
      ensures vars == VarsWritten(old(vars), l, Null)
      ensures var v := Written(old(View()), l, Null);
              Evolves(v, View()) && Keeps(v, View()) && OwnedSurvive(v, View(), multiset(vars))
      ensures forall b :: b in live && b.useCnt > 0 ==>
                old(b.useCnt) > 0 &&
                b.members == if l.Member? && b == l.b then old(b.members)[l.k := Null] else old(b.members)
      ensures Exists(l) && Value(l) == Null
    {
      hide OwnedSurvive, Keeps, Evolves, Inv, Quiet, Gone, UnusedDeleted, Owned, OwnerStays;
      match l
      case Var(i) => ResetVariable(i);
      case Member(b, k) =>
        if !Value(l).Strong? { OthersMayBeCleared(b, k); }
        ResetMember(b, k);
    }

    method ResetMember(b: ControlBlock, k: nat)
      requires Valid() && Exists(Member(b, k)) && OwnerStays(Member(b, k))
      modifies this`live, live
      ensures Valid() && UnusedDeleted() && live <= old(live) && b in live && b.useCnt > 0
      ensures var v := Written(old(View()), Member(b, k), Null);
              && Evolves(v, View()) && Keeps(v, View()) && OwnedSurvive(v, View(), multiset(vars))
              && forall x :: x in live && x.useCnt > 0 ==> x in v && v[x].use > 0 && x.members == v[x].members
    {
      hide Inv, Quiet, Owned, Evolves, Keeps, OwnedSurvive, Gone, UnusedDeleted, Seen;
      var h := b.members[k];
      ghost var owed, spent := multiset(vars), SpentMember(b, k);
      ghost var v := Seen(spent);
      SeenIsWritten(b, k);
      MemberCleared(View(), owed, b, k);
      assert owed + multiset{h} - multiset{h} == owed;
      DestroyHandle(h, owed + multiset{h}, spent);
      ghost var z := Seen(spent);
      AnchorOutlasts(v, z, owed, spent);
      AnchorInUse(z, owed, spent);
      SeenAt(b, spent);
      SurvivesAsItWas(v, z, b);
      ClearMember(b, k);
      SeenIsAll();
      AreDeleted(owed, NoMember);
      StaysQuiet(v, z);
      ExactSurvivors(v, z, owed);
      forall x | x in live && x.useCnt > 0
        ensures x in v && v[x].use > 0 && x.members == v[x].members
      {
        SurvivesAsItWas(v, z, x);
      }
    }

    lemma SeenIsWritten(b: ControlBlock, k: nat)
      requires b in live && k < |b.members|
      ensures Seen(SpentMember(b, k)) == Written(View(), Member(b, k), Null)
    {
    }

    method ClearMember(b: ControlBlock, k: nat)
      requires b in live && k < |Seen(SpentMember(b, k))[b].members|
      modifies b`members
      ensures View() == old(Seen(SpentMember(b, k)))
    {
      b.members := b.members[k := Null];
    }

    method ResetVariable(i: nat)
      requires Valid() && i < |vars|
      modifies this, live
      ensures Valid() && vars == old(vars)[i := Null]
      ensures UnusedDeleted() && SurvivorsKept() && Evolves(old(View()), View()) && Keeps(old(View()), View())
      ensures SameCycles(old(View()), View()) && OwnedSurvive(old(View()), View(), multiset(vars))
    {
      hide Inv, Keeps, Evolves, Seen, Gone, Quiet, UnusedDeleted, OwnedSurvive, SameCycles;
      var h := vars[i];
      ghost var v, rest := View(), multiset(vars) - multiset{h};
      SeenIsAll();
      DestroyHandle(h, multiset(vars), NoMember);
      SeenIsAll();
      StaysQuiet(v, View());
      NullsAdded(View(), rest, multiset{Null});
      vars := vars[i := Null];
      assert multiset(vars) == rest + multiset{Null};
      CyclesKept(v, View(), multiset(vars));
      ExactSurvivors(v, View(), multiset(vars));
      forall b | b in live && b.useCnt > 0
        ensures old(b.useCnt) > 0 && b.members == old(b.members)
      {
        SurvivesAsItWas(v, View(), b);
      }
    }

    /** Two pointers, wherever they live, exchange what they refer to; no count changes. */
    method Swap(p: Loc, q: Loc)
      requires Valid() && Exists(p) && Exists(q)
      modifies this`vars, (if p.Member? then {p.b} else {}) + (if q.Member? then {q.b} else {})
      ensures Valid() && vars == VarsWritten(VarsWritten(old(vars), p, old(Value(q))), q, old(Value(p)))
      ensures View() == Written(Written(old(View()), p, old(Value(q))), q, old(Value(p)))
      ensures Exists(p) && Exists(q) && Value(p) == old(Value(q)) && Value(q) == old(Value(p))
    {
      hide Inv, Gone, Quiet, View;
      ghost var v, us := View(), vars;
      Places(p);
      Places(q);
      if p == q {
        SameWritten(v, us, p);
      } else {
        NullsAdded(v, multiset(vars), multiset{Null});
        var x, y := ThreeExchanges(p, q);
        NullsDropped(View(), multiset(vars), multiset{Null});
        ThreeWrites(v, us, p, q, x, y);
      }
      TwoWrites(v, us, p, q, old(Value(p)), old(Value(q)));
      Places(p);
      Places(q);
    }

    method ThreeExchanges(p: Loc, q: Loc) returns (x: Handle, y: Handle)
      requires Exists(p) && Exists(q) && p != q && Ok(multiset(vars) + multiset{Null}) && Quiet(View()) && Gone()
      modifies this`vars, (if p.Member? then {p.b} else {}) + (if q.Member? then {q.b} else {})
      ensures Ok(multiset(vars) + multiset{Null}) && Quiet(View()) && Gone() && x == old(Value(p)) && y == old(Value(q))
      ensures vars == VarsWritten(VarsWritten(VarsWritten(old(vars), p, Null), q, x), p, y)
      ensures View() == Written(Written(Written(old(View()), p, Null), q, x), p, y)
    {
      hide Inv, Gone, Quiet;
      x := Exchange(p, Null);
      y := Exchange(q, x);
      var empty := Exchange(p, y);
    }

    /** What the snapshot says about a place. */
    lemma Places(l: Loc)
      ensures Exists(l) <==> IsPlace(View(), vars, l)
      ensures Exists(l) ==> At(View(), vars, l) == Value(l)
    {
    }

    /** The last variable goes out of scope. */
    method Drop()
      requires Valid() && vars != []
      modifies this, live
      ensures Valid() && vars == old(vars)[..|old(vars)| - 1]
      ensures UnusedDeleted() && SurvivorsKept() && Evolves(old(View()), View()) && Keeps(old(View()), View())
      ensures SameCycles(old(View()), View()) && OwnedSurvive(old(View()), View(), multiset(vars))
    {
      var h := vars[|vars| - 1];
      assert vars == vars[..|vars| - 1] + [h];
      vars := vars[..|vars| - 1];
      Discard(h);
    }

    /** Whenever no variable holds anything: everything is freed, unless some objects own each other in a cycle. */
    lemma AllFreedIffNoCycle()
      requires Valid() && forall i :: 0 <= i < |vars| ==> vars[i] == Null
      ensures live == {} <==> !exists path: seq<ControlBlock> :: Cycle(View(), path)
      ensures live == {} ==> forall b :: b in made ==> b.deleterRuns == 1
    {
      assert multiset{} + multiset(vars) == multiset(vars);
      NullsDropped(View(), multiset{}, multiset(vars));
      NoLeakIffNoCycle(View(), View());
      assert View().Keys == live;
    }

    /** All variables go out of scope. Everything is freed, and every object deleted exactly once, if and only if no
        objects owned each other in a cycle before; in any case the objects that survive are exactly those to which such
        a cycle led. */
    method DropAll()
      requires Valid()
      modifies this, live
      ensures Valid() && vars == [] && live <= old(live) && made == old(made)
      ensures live == {} <==> !exists path: seq<ControlBlock> :: Cycle(old(View()), path)
      ensures live == {} ==> forall b :: b in made ==> b.deleterRuns == 1
      ensures forall b :: b in old(live) ==>
                (b in live && b.useCnt > 0 <==>
                 exists path: seq<ControlBlock> :: SelfHeld(old(View()), path) && path[|path| - 1] == b)
      ensures SurvivorsKept()
    {
      ghost var v := View();
      SelfHeldKept(v, multiset(vars), v);
      while vars != []
        invariant Valid() && SurvivorsKept() && Evolves(v, View()) && Keeps(v, View())
        decreases |vars|
      {
        ghost var w := View();
        Drop();
        EvolvesOn(v, w, View());
        KeepsOn(v, w, View());
      }
      NoLeakIffNoCycle(v, View());
      assert View().Keys == live;
      forall b | b in old(live)
        ensures b in live && b.useCnt > 0 <==>
                  exists path: seq<ControlBlock> :: SelfHeld(v, path) && path[|path| - 1] == b
      {
        SurvivorsAreCyclic(v, View(), b);
        assert b in live ==> View()[b].use == b.useCnt;
      }
    }
  }

  // ----- what the operations do to a snapshot

  /** One more handle to a live block; an empty handle changes nothing. */
  ghost function Acquired(cells: Cells, h: Handle): Cells {
    if h == Null || h.cb !in cells then cells
    else if h.Strong? then cells[h.cb := cells[h.cb].(use := cells[h.cb].use + 1)]
    else cells[h.cb := cells[h.cb].(weak := cells[h.cb].weak + 1)]
  }

  ghost function Written(cells: Cells, dst: Loc, h: Handle): Cells
    requires dst.Member? ==> dst.b in cells && dst.k < |cells[dst.b].members|
  {
    if dst.Var? then cells else cells[dst.b := cells[dst.b].(members := cells[dst.b].members[dst.k := h])]
  }

  ghost function VarsWritten(vars: seq<Handle>, dst: Loc, h: Handle): seq<Handle>
    requires dst.Var? ==> dst.i < |vars|
  {
    if dst.Var? then vars[dst.i := h] else vars
  }

  ghost predicate IsPlace(cells: Cells, vars: seq<Handle>, l: Loc) {
    if l.Var? then l.i < |vars| else l.b in cells && cells[l.b].use > 0 && l.k < |cells[l.b].members|
  }

  ghost function At(cells: Cells, vars: seq<Handle>, l: Loc): Handle
    requires IsPlace(cells, vars, l)
  {
    if l.Var? then vars[l.i] else cells[l.b].members[l.k]
  }

  lemma SameWritten(cells: Cells, vars: seq<Handle>, p: Loc)
    requires IsPlace(cells, vars, p)
    ensures Written(cells, p, At(cells, vars, p)) == cells && VarsWritten(vars, p, At(cells, vars, p)) == vars
  {
    if p.Member? { assert cells[p.b].members[p.k := cells[p.b].members[p.k]] == cells[p.b].members; }
  }

  /** An exchange by way of an empty temporary. */
  lemma ThreeWrites(cells: Cells, vars: seq<Handle>, p: Loc, q: Loc, x: Handle, y: Handle)
    requires p != q && IsPlace(cells, vars, p) && IsPlace(cells, vars, q)
    ensures Written(Written(Written(cells, p, Null), q, x), p, y) == Written(Written(cells, p, y), q, x)
    ensures VarsWritten(VarsWritten(VarsWritten(vars, p, Null), q, x), p, y) ==
              VarsWritten(VarsWritten(vars, p, y), q, x)
  {
    if p.Var? && q.Var? {
      assert vars[p.i := Null][q.i := x][p.i := y] == vars[p.i := y][q.i := x];
    } else if p.Member? {
      var ms := cells[p.b].members;
      assert ms[p.k := Null][p.k := y] == ms[p.k := y];
      if q.Member? && q.b == p.b { assert ms[p.k := Null][q.k := x][p.k := y] == ms[p.k := y][q.k := x]; }
    }
    assert Written(Written(Written(cells, p, Null), q, x), p, y) == Written(Written(cells, p, y), q, x);
  }

  /** After two writes, each place holds what was written to it last. */
  lemma TwoWrites(cells: Cells, vars: seq<Handle>, p: Loc, q: Loc, x: Handle, y: Handle)
    requires IsPlace(cells, vars, p) && IsPlace(cells, vars, q)
    ensures var c, vs := Written(Written(cells, p, y), q, x), VarsWritten(VarsWritten(vars, p, y), q, x);
            && IsPlace(c, vs, p) && At(c, vs, p) == (if p == q then x else y)
            && IsPlace(c, vs, q) && At(c, vs, q) == x
  {
  }

  // ----- two programs

  /** An object that owns itself is never deleted, although no variable is left. */
  method SelfOwnerLeaks() returns (m: Memory, b: ControlBlock)
    ensures m.Valid() && m.vars == [] && b in m.live && b.useCnt > 0 && b.deleterRuns == 0
  {
    hide Inv, Quiet, Memory.Gone, Memory.UnusedDeleted, Evolves, Keeps, OwnedSurvive, Acquired, Cycle, SelfHeld;
    m := new Memory();
    b := m.MakeShared(1);
    m.Assign(Member(b, 0), Var(0));
    m.ValueIsSafe(Var(0));
    OwnsItself(m.View(), b);
    m.DropAll();
    m.DeletedIffUnused(b);
  }

  lemma OwnsItself(cells: Cells, b: ControlBlock)
    requires b in cells && Strong(b) in cells[b].members
    ensures SelfHeld(cells, [b])
  {
    assert Strong([b][0]) in cells[[b][0]].members;
  }

  /** Two nodes with a strong handle forth and a weak one back: both are deleted, once each, and nothing is left. */
  method WeakBackLink() returns (m: Memory, first: ControlBlock, second: ControlBlock)
    ensures m.Valid() && m.live == {} && first != second && first.deleterRuns == 1 && second.deleterRuns == 1
  {
    m, first, second := StrongForth();
    WeakBack(m, first, second);
    OneWayOnly(m.View(), first, second);
    m.DropAll();
  }

  method StrongForth() returns (m: Memory, first: ControlBlock, second: ControlBlock)
    ensures fresh(m) && m.Valid() && first != second && m.live == m.made == {first, second} && fresh(m.live)
    ensures m.vars == [Strong(first), Strong(second)] && first.members == [Strong(second), Null]
    ensures second.members == [Null, Null]
  {
    hide Inv, Quiet, Memory.Gone, Memory.UnusedDeleted, Evolves, Keeps, OwnedSurvive, Acquired;
    m := new Memory();
    first := m.MakeShared(2);
    second := m.MakeShared(2);
    m.Assign(Member(first, 0), Var(1));
    m.ValueIsSafe(Var(0));
    m.ValueIsSafe(Var(1));
  }

  method WeakBack(m: Memory, first: ControlBlock, second: ControlBlock)
    requires m.Valid() && first != second && m.live == {first, second} && m.vars == [Strong(first), Strong(second)]
    requires first.members == [Strong(second), Null] && second.members == [Null, Null]
    modifies m, m.live
    ensures m.Valid() && m.live == {first, second} && m.made == old(m.made)
    ensures first.members == [Strong(second), Null] && second.members == [Null, Weak(first)]
  {
    hide Inv, Quiet, Memory.Gone, Memory.UnusedDeleted, Evolves, Keeps, OwnedSurvive, Acquired;
    m.ValueIsSafe(Var(1));
    m.Observe(Var(0));
    MoveIn(m, first, second);
  }

  method MoveIn(m: Memory, first: ControlBlock, second: ControlBlock)
    requires m.Valid() && first != second && m.live == {first, second} && second.useCnt > 0
    requires m.vars == [Strong(first), Strong(second), Weak(first)]
    requires first.members == [Strong(second), Null] && second.members == [Null, Null]
    modifies m, m.live
    ensures m.Valid() && m.live == {first, second} && m.made == old(m.made)
    ensures first.members == [Strong(second), Null] && second.members == [Null, Weak(first)]
  {
    hide Inv, Quiet, Memory.Gone, Memory.UnusedDeleted, Evolves, Keeps, OwnedSurvive, Acquired;
    m.MoveAssign(Member(second, 1), Var(2));
    m.ValueIsSafe(Var(0));
    m.ValueIsSafe(Var(1));
  }

  lemma OneWayOnly(cells: Cells, first: ControlBlock, second: ControlBlock)
    requires cells.Keys == {first, second} && first != second
    requires Strong(first) !in cells[first].members && forall h :: h in cells[second].members ==> !h.Strong?
    ensures !exists path: seq<ControlBlock> :: Cycle(cells, path)
  {
    if path: seq<ControlBlock> :| Cycle(cells, path) {
      var n := |path| - 1;
      assert path[n] == first && path[0] == second;
      assert Strong(path[1]) in cells[path[0]].members;
    }
  }
}
