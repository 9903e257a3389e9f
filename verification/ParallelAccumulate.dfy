/** Summing a sequence in blocks of 25 on a thread pool. A future is filled by some worker, at some moment between
    the enqueueing and the `get` of its task; the proofs make no assumption about when, or in which order. */
module ParallelAccumulation {
  import opened Options
  import opened ThreadPool
  import opened WorkerPool

  const BLOCK_SIZE: nat := 25

  /** The sequential left fold, `std::accumulate`. */
  function Fold<T>(op: (T, T) -> T, init: T, s: seq<T>): T {
    if s == [] then init else op(Fold(op, init, s[..|s| - 1]), s[|s| - 1])
  }

  /** What the blocks of `s` add up to, combined in block order onto `init`, each block summed from `zero`. */
  function Blockwise<T>(op: (T, T) -> T, zero: T, init: T, s: seq<T>): T {
    if s == [] then init
    else if |s| <= BLOCK_SIZE then op(init, Fold(op, zero, s))
    else Blockwise(op, zero, op(init, Fold(op, zero, s[..BLOCK_SIZE])), s[BLOCK_SIZE..])
  }

  /** The blocks are combined from the left: one more block, behind full ones, is added to what there is. */
  lemma {:induction false} BlockAppended<T>(op: (T, T) -> T, zero: T, init: T, a: seq<T>, b: seq<T>, blocks: nat)
    requires |a| == 25 * blocks && 0 < |b| <= 25
    ensures Blockwise(op, zero, init, a + b) == op(Blockwise(op, zero, init, a), Fold(op, zero, b))
    decreases blocks
  {
    if blocks == 0 {
      assert a + b == b;
    } else {
      var front, rest := a[..25], a[25..];
      assert (a + b)[..25] == front && (a + b)[25..] == rest + b;
      BlockAppended(op, zero, op(init, Fold(op, zero, front)), rest, b, blocks - 1);
      if blocks == 1 { assert a == front && rest == []; }
    }
  }

  // ----- when the blocks do not matter

  ghost predicate Associative<T(!new)>(op: (T, T) -> T) {
    forall x, y, z :: op(op(x, y), z) == op(x, op(y, z))
  }

  ghost predicate Identity<T(!new)>(op: (T, T) -> T, zero: T) {
    forall x :: op(x, zero) == x && op(zero, x) == x
  }

  /** Starting a block from `zero` cannot be noticed: neither after one element nor after two. */
  ghost predicate Restartable<T(!new)>(op: (T, T) -> T, zero: T) {
    && (forall x, y :: op(x, op(zero, y)) == op(x, y))
    && (forall x, y, z :: op(x, op(op(zero, y), z)) == op(op(x, y), z))
  }

  lemma {:induction false} FoldSplit<T>(op: (T, T) -> T, init: T, a: seq<T>, b: seq<T>)
    ensures Fold(op, init, a + b) == Fold(op, Fold(op, init, a), b)
  {
    if b == [] {
      assert a + b == a;
    } else {
      assert (a + b)[..|a + b| - 1] == a + b[..|b| - 1];
      FoldSplit(op, init, a, b[..|b| - 1]);
    }
  }

  lemma {:induction false} BlockAbsorbed<T(!new)>(op: (T, T) -> T, zero: T, init: T, s: seq<T>)
    requires Restartable(op, zero) && s != []
    ensures op(init, Fold(op, zero, s)) == Fold(op, init, s)
    decreases |s|
  {
    var front, z := s[..|s| - 1], s[|s| - 1];
    if front == [] {
      assert Fold(op, zero, s) == op(Fold(op, zero, front), z);
      assert Fold(op, init, s) == op(Fold(op, init, front), z);
      assert Fold(op, zero, front) == zero && Fold(op, init, front) == init;
    } else {
      var f := Fold(op, zero, front);
      BlockAbsorbed(op, zero, zero, front);
      BlockAbsorbed(op, zero, init, front);
      assert op(zero, f) == f;
      assert op(init, op(op(zero, f), z)) == op(op(init, f), z);
    }
  }

  lemma {:induction false} BlockwiseIsFold<T(!new)>(op: (T, T) -> T, zero: T, init: T, s: seq<T>)
    requires Restartable(op, zero)
    ensures Blockwise(op, zero, init, s) == Fold(op, init, s)
    decreases |s|
  {
    if |s| > BLOCK_SIZE {
      var a, b := s[..BLOCK_SIZE], s[BLOCK_SIZE..];
      BlockAbsorbed(op, zero, init, a);
      BlockwiseIsFold(op, zero, Fold(op, init, a), b);
      FoldSplit(op, init, a, b);
      assert s == a + b;
    } else if s != [] {
      BlockAbsorbed(op, zero, init, s);
    }
  }

  ghost predicate AlwaysTheFold<T(!new)>(op: (T, T) -> T, zero: T) {
    forall init, s :: Blockwise(op, zero, init, s) == Fold(op, init, s)
  }

  /** The parallel sum is the sequential one on every input exactly when the two laws of `Restartable` hold. */
  lemma FoldIffRestartable<T(!new)>(op: (T, T) -> T, zero: T)
    ensures AlwaysTheFold(op, zero) <==> Restartable(op, zero)
  {
    if Restartable(op, zero) {
      forall init, s
        ensures Blockwise(op, zero, init, s) == Fold(op, init, s)
      {
        BlockwiseIsFold(op, zero, init, s);
      }
    }
    if AlwaysTheFold(op, zero) {
      OnlyRestartable(op, zero);
    }
  }

  /** Sequences of one and of two elements are enough to tell. */
  lemma OnlyRestartable<T(!new)>(op: (T, T) -> T, zero: T)
    requires forall init, s :: Blockwise(op, zero, init, s) == Fold(op, init, s)
    ensures Restartable(op, zero)
  {
    forall x, y
      ensures op(x, op(zero, y)) == op(x, y)
    {
      FoldOfOne(op, x, y);
      FoldOfOne(op, zero, y);
      assert Blockwise(op, zero, x, [y]) == Fold(op, x, [y]);
    }
    forall x, y, z
      ensures op(x, op(op(zero, y), z)) == op(op(x, y), z)
    {
      FoldOfTwo(op, x, y, z);
      FoldOfTwo(op, zero, y, z);
      assert Blockwise(op, zero, x, [y, z]) == Fold(op, x, [y, z]);
    }
  }

  lemma FoldOfOne<T>(op: (T, T) -> T, init: T, y: T)
    ensures Fold(op, init, [y]) == op(init, y)
  {
    assert [y][..0] == [];
  }

  lemma FoldOfTwo<T>(op: (T, T) -> T, init: T, y: T, z: T)
    ensures Fold(op, init, [y, z]) == op(op(init, y), z)
  {
    assert [y, z][..1] == [y];
    FoldOfOne(op, init, y);
  }

  /** An associative operation with `T()` as its identity will do. */
  lemma MonoidsAreRestartable<T(!new)>(op: (T, T) -> T, zero: T)
    requires Associative(op) && Identity(op, zero)
    ensures Restartable(op, zero)
  {
    forall x, y, z
      ensures op(x, op(op(zero, y), z)) == op(op(x, y), z)
    {
      assert op(zero, y) == y && op(op(x, y), z) == op(x, op(y, z));
    }
  }

  /** Addition is such an operation. */
  lemma AdditionIsRestartable()
    ensures Restartable((x: int, y: int) => x + y, 0)
  {
    MonoidsAreRestartable((x: int, y: int) => x + y, 0);
  }

  /** Subtraction on the integers is not restartable: 10 - 1 - 1 is 8, but the only block is worth -2 and 10 - (-2) is
      12. */
  lemma SubtractionDiffers()
    ensures var minus := (x: int, y: int) => x - y;
            Blockwise(minus, 0, 10, [1, 1]) == 12 && Fold(minus, 10, [1, 1]) == 8
  {
    var minus := (x: int, y: int) => x - y;
    FoldOfTwo(minus, 0, 1, 1);
    FoldOfTwo(minus, 10, 1, 1);
  }

  /** All blocks but the last are full, and the last one has 1 to 25 elements. */
  lemma LastBlockIsNotEmpty(length: nat, blocks: nat)
    requires length > 0 && blocks == (length + BLOCK_SIZE - 1) / BLOCK_SIZE
    ensures 1 <= blocks && 1 <= length - 25 * (blocks - 1) <= 25 && blocks - 1 == (length - 1) / 25
  {
  }

  lemma {:induction false} BlockwiseStep<T>(op: (T, T) -> T, zero: T, init: T, s: seq<T>, k: nat)
    requires |s| > BLOCK_SIZE * (k + 1)
    ensures Blockwise(op, zero, init, s[BLOCK_SIZE * k..])
         == Blockwise(op, zero, op(init, Fold(op, zero, s[BLOCK_SIZE * k..BLOCK_SIZE * (k + 1)])),
            s[BLOCK_SIZE * (k + 1)..])
  {
    var rest := s[BLOCK_SIZE * k..];
    assert rest[..BLOCK_SIZE] == s[BLOCK_SIZE * k..BLOCK_SIZE * (k + 1)];
    assert rest[BLOCK_SIZE..] == s[BLOCK_SIZE * (k + 1)..];
  }

  lemma FewElements<T>(op: (T, T) -> T, zero: T, init: T, s: seq<T>)
    requires |s| <= BLOCK_SIZE
    ensures Blockwise(op, zero, init, s) == if s == [] then init else op(init, Fold(op, zero, s))
    ensures s == [] ==> Fold(op, init, s) == init
  {
  }

  method AccumulateBlock<T>(op: (T, T) -> T, zero: T, block: seq<T>) returns (r: T)
    ensures r == Fold(op, zero, block)
  {
    r := zero;
    for i := 0 to |block|
      invariant r == Fold(op, zero, block[..i])
    {
      assert block[..i + 1][..i] == block[..i];
      r := op(r, block[i]);
    }
    assert block[..|block|] == block;
  }

  /** Whatever the threads of the pool do meanwhile, this ends, and the result is determined by the input: the block
      sums combined in block order, which is the sequential fold for every restartable operation. A stopped pool
      refuses, unless a single block makes it unnecessary. */
  method ParallelAccumulate<T(!new)>(pool: Pool<T>, op: (T, T) -> T, zero: T, s: seq<T>, init: T) returns (r: Option<T>)
    requires pool.Valid() && pool.client.Idle?
    modifies pool
    ensures pool.Valid() && pool.client.Idle? && pool.stopRequested == old(pool.stopRequested)
    ensures r == if pool.stopRequested && |s| > 25 then None else Some(Blockwise(op, zero, init, s))
    ensures |pool.tasks| == |old(pool.tasks)| + if r == None || s == [] then 0 else (|s| - 1) / 25
    ensures r.Some? && Restartable(op, zero) ==> r.value == Fold(op, init, s)
  {
    hide Inv, Restartable, Blockwise, Fold;
    if |s| == 0 {
      FewElements(op, zero, init, s);
      return Some(init);
    }
    var numBlocks := (|s| + BLOCK_SIZE - 1) / BLOCK_SIZE;
    LastBlockIsNotEmpty(|s|, numBlocks);
    var futures: seq<Ticket>, blockStart := [], 0;
    for i := 0 to numBlocks - 1
      invariant pool.Valid() && pool.client.Idle? && pool.stopRequested == old(pool.stopRequested)
      invariant (i > 0 ==> !pool.stopRequested)
      invariant blockStart == BLOCK_SIZE * i && |futures| == i && |pool.tasks| == |old(pool.tasks)| + i
      invariant Promised(pool, futures, op, zero, s)
    {
      var blockEnd := blockStart + BLOCK_SIZE;
      var block := s[blockStart..blockEnd];
      var future := pool.Enqueue(() => Fold(op, zero, block));
      if future == None {
        return None;
      }
      futures := futures + [future.value];
      blockStart := blockEnd;
    }
    var lastResult := AccumulateBlock(op, zero, s[blockStart..]);
    var result := init;
    for i := 0 to numBlocks - 1
      invariant pool.Valid() && pool.client.Idle? && pool.stopRequested == old(pool.stopRequested)
      invariant Promised(pool, futures, op, zero, s) && |pool.tasks| == |old(pool.tasks)| + numBlocks - 1
      invariant Blockwise(op, zero, init, s) == Blockwise(op, zero, result, s[BLOCK_SIZE * i..])
    {
      var value := pool.Get(futures[i]);
      BlockwiseStep(op, zero, result, s, i);
      result := op(result, value);
    }
    FewElements(op, zero, result, s[blockStart..]);
    result := op(result, lastResult);
    if Restartable(op, zero) {
      BlockwiseIsFold(op, zero, init, s);
    }
    return Some(result);
  }

  /** The futures, in order, are for the sums of the blocks. */
  ghost predicate Promised<T>(pool: Pool<T>, futures: seq<Ticket>, op: (T, T) -> T, zero: T, s: seq<T>)
    reads pool
  {
    |s| >= BLOCK_SIZE * |futures| &&
    forall j :: 0 <= j < |futures| ==>
      futures[j] < |pool.tasks| && pool.tasks[futures[j]]() == Fold(op, zero, s[BLOCK_SIZE * j..BLOCK_SIZE * (j + 1)])
  }
}
