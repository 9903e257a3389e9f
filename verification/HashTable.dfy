/** A hash table with chaining. The hash function is arbitrary, and a table stands for a finite map. */
module HashTables {
  import opened Options

  datatype Entry<K, V> = Entry(key: K, value: V)

  type Table<K, V> = seq<seq<Entry<K, V>>>

  // ----- what a table of buckets stands for

  ghost predicate InBucket<K, V>(bucket: seq<Entry<K, V>>, k: K) {
    exists j :: 0 <= j < |bucket| && bucket[j].key == k
  }

  /** The entries of bucket number `i` of `n` are entries of `m` that belong there, and no key occurs twice. */
  ghost predicate Sound<K, V>(hash: K -> nat, n: nat, i: nat, bucket: seq<Entry<K, V>>, m: map<K, V>) {
    && n > 0
    && (forall j :: 0 <= j < |bucket| ==>
          hash(bucket[j].key) % n == i && bucket[j].key in m && m[bucket[j].key] == bucket[j].value)
    && (forall j, l :: 0 <= j < l < |bucket| ==> bucket[j].key != bucket[l].key)
  }

  /** The buckets hold exactly the entries of `m`, each once, in the bucket of its hash. */
  ghost predicate Denotes<K, V>(hash: K -> nat, t: Table<K, V>, m: map<K, V>) {
    && (forall i {:trigger Sound(hash, |t|, i, t[i], m)} :: 0 <= i < |t| ==> Sound(hash, |t|, i, t[i], m))
    && (forall k :: k in m ==> |t| > 0 && InBucket(t[hash(k) % |t|], k))
  }

  ghost function Total<K, V>(t: Table<K, V>): nat {
    if t == [] then 0 else Total(t[..|t| - 1]) + |t[|t| - 1]|
  }

  /** A table stands for one map only. */
  lemma DenotesOneMap<K, V>(hash: K -> nat, t: Table<K, V>, m: map<K, V>, m': map<K, V>)
    requires Denotes(hash, t, m) && Denotes(hash, t, m')
    ensures m == m'
  {
    forall k | k in m
      ensures k in m' && m'[k] == m[k]
    {
      var i := hash(k) % |t|;
      assert InBucket(t[i], k) && Sound(hash, |t|, i, t[i], m) && Sound(hash, |t|, i, t[i], m');
    }
    forall k | k in m'
      ensures k in m
    {
      var i := hash(k) % |t|;
      assert InBucket(t[i], k) && Sound(hash, |t|, i, t[i], m);
    }
  }

  lemma {:induction false} TotalUpdate<K, V>(t: Table<K, V>, i: nat, bucket: seq<Entry<K, V>>)
    requires i < |t|
    ensures Total(t[i := bucket]) + |t[i]| == Total(t) + |bucket|
  {
    var n := |t| - 1;
    if i == n {
      assert t[i := bucket][..n] == t[..n];
    } else {
      assert t[i := bucket][..n] == t[..n][i := bucket];
      TotalUpdate(t[..n], i, bucket);
    }
  }

  lemma {:induction false} TotalOfEmpty<K, V>(t: Table<K, V>)
    requires forall i :: 0 <= i < |t| ==> t[i] == []
    ensures Total(t) == 0
  {
    if t != [] { TotalOfEmpty(t[..|t| - 1]); }
  }

  /** The total chain length is at most the number of buckets times the longest chain. */
  lemma {:induction false} TotalBound<K, V>(t: Table<K, V>, longest: nat)
    requires forall i :: 0 <= i < |t| ==> |t[i]| <= longest
    ensures Total(t) <= |t| * longest
  {
    if t != [] {
      TotalBound(t[..|t| - 1], longest);
      assert |t| * longest == (|t| - 1) * longest + longest;
    }
  }

  /** One bucket changes, and with it the value of one key of that bucket. */
  lemma BucketReplaced<K, V>(hash: K -> nat, t: Table<K, V>, m: map<K, V>, i: nat, bucket: seq<Entry<K, V>>, m': map<K,
      V>, key: K)
    requires Denotes(hash, t, m) && i < |t| && hash(key) % |t| == i && m' - {key} == m - {key}
    requires Sound(hash, |t|, i, bucket, m')
    requires forall k :: k in m' && (k == key || InBucket(t[i], k)) ==> InBucket(bucket, k)
    ensures Denotes(hash, t[i := bucket], m')
  {
    var t' := t[i := bucket];
    assert forall k :: k != key ==> (k in m <==> k in m - {key}) && (k in m' <==> k in m' - {key});
    forall l | 0 <= l < |t'|
      ensures Sound(hash, |t'|, l, t'[l], m')
    {
      if l != i {
        assert Sound(hash, |t|, l, t[l], m);
        forall j | 0 <= j < |t[l]|
          ensures t[l][j].key in m' && m'[t[l][j].key] == t[l][j].value
        {
          var k := t[l][j].key;
          assert k != key && k in m - {key} && (m - {key})[k] == m[k];
        }
      }
    }
    forall k | k in m'
      ensures InBucket(t'[hash(k) % |t|], k)
    {
      if k != key { assert k in m' - {key} && k in m && InBucket(t[hash(k) % |t|], k); }
    }
  }

  lemma Pushed<K, V>(hash: K -> nat, t: Table<K, V>, m: map<K, V>, e: Entry<K, V>)
    requires Denotes(hash, t, m) && |t| > 0 && e.key !in m
    ensures var i := hash(e.key) % |t|; var t' := t[i := t[i] + [e]];
            Denotes(hash, t', m[e.key := e.value]) && Total(t') == Total(t) + 1
  {
    var i := hash(e.key) % |t|;
    var bucket, m' := t[i] + [e], m[e.key := e.value];
    TotalUpdate(t, i, bucket);
    assert Sound(hash, |t|, i, t[i], m);
    assert bucket[|t[i]|] == e;
    forall k | InBucket(t[i], k)
      ensures InBucket(bucket, k)
    {
      var j :| 0 <= j < |t[i]| && t[i][j].key == k;
      assert bucket[j].key == k;
    }
    assert m' - {e.key} == m - {e.key};
    BucketReplaced(hash, t, m, i, bucket, m', e.key);
  }

  lemma Updated<K, V>(hash: K -> nat, t: Table<K, V>, m: map<K, V>, i: nat, j: nat, v: V)
    requires Denotes(hash, t, m) && i < |t| && j < |t[i]|
    ensures var t' := t[i := t[i][j := Entry(t[i][j].key, v)]];
            Denotes(hash, t', m[t[i][j].key := v]) && Total(t') == Total(t)
  {
    assert Sound(hash, |t|, i, t[i], m);
    var key := t[i][j].key;
    var bucket, m' := t[i][j := Entry(key, v)], m[key := v];
    TotalUpdate(t, i, bucket);
    forall k | InBucket(t[i], k)
      ensures InBucket(bucket, k)
    {
      var l :| 0 <= l < |t[i]| && t[i][l].key == k;
      assert bucket[l].key == k;
    }
    assert m' - {key} == m - {key};
    BucketReplaced(hash, t, m, i, bucket, m', key);
  }

  lemma ErasedAt<K, V>(bucket: seq<Entry<K, V>>, j: nat, l: nat)
    requires j < |bucket| && l < |bucket| - 1
    ensures (bucket[..j] + bucket[j + 1..])[l] == bucket[if l < j then l else l + 1]
  {
  }

  lemma ErasedBucket<K, V>(hash: K -> nat, n: nat, i: nat, bucket: seq<Entry<K, V>>, m: map<K, V>, j: nat)
    requires Sound(hash, n, i, bucket, m) && j < |bucket|
    ensures Sound(hash, n, i, bucket[..j] + bucket[j + 1..], m - {bucket[j].key})
    ensures forall k :: k != bucket[j].key && InBucket(bucket, k) ==> InBucket(bucket[..j] + bucket[j + 1..], k)
  {
    var rest := bucket[..j] + bucket[j + 1..];
    forall l | 0 <= l < |rest|
      ensures rest[l] == bucket[if l < j then l else l + 1]
    {
      ErasedAt(bucket, j, l);
    }
    forall k | k != bucket[j].key && InBucket(bucket, k)
      ensures InBucket(rest, k)
    {
      var l :| 0 <= l < |bucket| && bucket[l].key == k;
      assert rest[if l < j then l else l - 1].key == k;
    }
  }

  lemma Erased<K, V>(hash: K -> nat, t: Table<K, V>, m: map<K, V>, i: nat, j: nat)
    requires Denotes(hash, t, m) && i < |t| && j < |t[i]|
    ensures var t' := t[i := t[i][..j] + t[i][j + 1..]];
            Denotes(hash, t', m - {t[i][j].key}) && Total(t') + 1 == Total(t)
  {
    assert Sound(hash, |t|, i, t[i], m);
    var key, bucket := t[i][j].key, t[i][..j] + t[i][j + 1..];
    TotalUpdate(t, i, bucket);
    ErasedBucket(hash, |t|, i, t[i], m, j);
    BucketReplaced(hash, t, m, i, bucket, m - {key}, key);
  }

  // ----- the load factor, 0.75, in integers

  predicate Overloaded(size: nat, capacity: nat) {
    4 * size > 3 * capacity
  }

  /** `(size + 1) / 0.75`, truncated. */
  function MinBuckets(size: nat): nat {
    4 * (size + 1) / 3
  }

  /** The truncated quotient is enough buckets, although it may be less than the exact one, by less than one bucket. */
  lemma TruncationSuffices(size: nat)
    ensures MinBuckets(size) >= 1 && !Overloaded(size, MinBuckets(size))
    ensures MinBuckets(size) as real * 0.75 <= (size + 1) as real < (MinBuckets(size) + 1) as real * 0.75
  {
  }

  /** The rehash that an insertion triggers gives exactly twice as many buckets. */
  lemma GrowthDoubles(size: nat, capacity: nat)
    requires capacity > 0 && !Overloaded(size, capacity) && Overloaded(size + 1, capacity)
    ensures MinBuckets(size + 1) <= 2 * capacity
  {
  }

  function LoadFactor(size: nat, capacity: nat): (load: real)
    requires capacity > 0
    ensures load * capacity as real == size as real
  {
    size as real / capacity as real
  }

  /** `Overloaded` in integers is what the source asks of its floating-point load factor. */
  lemma LoadFactorBound(size: nat, capacity: nat)
    requires capacity > 0
    ensures Overloaded(size, capacity) <==> LoadFactor(size, capacity) > 0.75
  {
    hide LoadFactor;
    QuotientBound(LoadFactor(size, capacity), size as real, capacity as real);
  }

  lemma QuotientBound(load: real, size: real, capacity: real)
    requires capacity > 0.0 && load * capacity == size
    ensures load > 0.75 <==> 4.0 * size > 3.0 * capacity
  {
    if load > 0.75 {
      ProductSign(load - 0.75, capacity);
    } else if load < 0.75 {
      ProductSign(0.75 - load, capacity);
    }
  }

  lemma ProductSign(x: real, y: real)
    requires x > 0.0 && y > 0.0
    ensures x * y > 0.0
  {
  }

  const DEFAULT_CAPACITY: nat := 17

  class HashTable<K(==), V> {
    const hash: K -> nat
    var table: Table<K, V>
    var size: nat
    var capacity: nat
    ghost var contents: map<K, V>
    ghost var moves: nat  // how many entries rehashes have moved so far

    /** The table stands for `contents`, counts it, and is never overloaded. */
    ghost predicate Valid()
      reads this
    {
      && |table| == capacity
      && Denotes(hash, table, contents)
      && size == Total(table) == |contents|
      && !Overloaded(size, capacity)
    }

    constructor (hash: K -> nat, cap: nat := DEFAULT_CAPACITY)
      ensures Valid() && contents == map[] && capacity == cap && moves == 0 && this.hash == hash
    {
      this.hash, size, capacity, contents, moves := hash, 0, cap, map[], 0;
      table := seq(cap, i => []);
      new;
      TotalOfEmpty(table);
    }

    function Index(k: K): (i: nat)
      requires capacity > 0
      reads this
      ensures i < capacity
    {
      hash(k) % capacity
    }

    method FindEntry(k: K) returns (index: nat, pos: nat, found: bool)
      requires Valid() && capacity > 0
      ensures index == Index(k) && found == (k in contents)
      ensures if found then pos < |table[index]| && table[index][pos] == Entry(k, contents[k])
              else pos == |table[index]|
    {
      index, pos := Index(k), 0;
      var bucket := table[index];
      while pos < |bucket| && bucket[pos].key != k
        invariant pos <= |bucket|
        invariant forall j :: 0 <= j < pos ==> bucket[j].key != k
      {
        pos := pos + 1;
      }
      found := pos != |bucket|;
      assert Sound(hash, |table|, index, bucket, contents);
      if k in contents { assert InBucket(bucket, k); }
    }

    method Insert(k: K, v: V)
      requires Valid() && capacity > 0
      modifies this
      ensures Valid() && contents == old(contents)[k := v]
      ensures size == old(size) + if k in old(contents) then 0 else 1
      ensures capacity == if Overloaded(size, old(capacity)) then 2 * old(capacity) else old(capacity)
      ensures moves == old(moves) + if Overloaded(size, old(capacity)) then size else 0
    {
      var index, pos, found := FindEntry(k);
      if found {
        Updated(hash, table, contents, index, pos, v);
        table := table[index := table[index][pos := Entry(k, v)]];
        contents := contents[k := v];
      } else {
        Pushed(hash, table, contents, Entry(k, v));
        table := table[index := table[index] + [Entry(k, v)]];
        contents := contents[k := v];
        size := size + 1;
        if Overloaded(size, capacity) {
          GrowthDoubles(old(size), capacity);
          Rehash(capacity * 2);
        }
      }
    }

    method Find(k: K) returns (r: Option<V>)
      requires Valid() && capacity > 0
      ensures r == if k in contents then Some(contents[k]) else None
    {
      var index, pos, found := FindEntry(k);
      if !found {
        return None;
      }
      return Some(table[index][pos].value);
    }

    method Remove(k: K) returns (removed: bool)
      requires Valid() && capacity > 0
      modifies this
      ensures Valid() && contents == old(contents) - {k} && capacity == old(capacity) && moves == old(moves)
      ensures removed == (k in old(contents)) && size == old(size) - if removed then 1 else 0
    {
      hide Denotes, Sound, Total;
      var index, pos, found := FindEntry(k);
      if found {
        Erased(hash, table, contents, index, pos);
        table := table[index := table[index][..pos] + table[index][pos + 1..]];
        contents := contents - {k};
        size := size - 1;
      }
      assert contents == old(contents) - {k};
      return found;
    }

    /** The buckets of `Rehash`: every entry goes to the bucket of its hash among `newCapacity`. */
    method Redistribute(newCapacity: nat) returns (newTable: Table<K, V>)
      requires |table| == capacity && Denotes(hash, table, contents) && newCapacity > 0
      ensures |newTable| == newCapacity && Denotes(hash, newTable, contents) && Total(newTable) == Total(table)
    {
      newTable := seq(newCapacity, i => []);
      TotalOfEmpty(newTable);
      ghost var moved: map<K, V> := map[];
      assert Denotes(hash, newTable, moved);
      for i := 0 to |table|
        invariant |newTable| == newCapacity && Denotes(hash, newTable, moved) && Moved(moved, i, 0)
        invariant Total(newTable) == Total(table[..i])
      {
        for j := 0 to |table[i]|
          invariant |newTable| == newCapacity && Denotes(hash, newTable, moved) && Moved(moved, i, j)
          invariant Total(newTable) == Total(table[..i]) + j
        {
          var entry := table[i][j];
          MovedOne(moved, i, j);
          var newIndex := hash(entry.key) % newCapacity;
          Pushed(hash, newTable, moved, entry);
          newTable := newTable[newIndex := newTable[newIndex] + [entry]];
          moved := moved[entry.key := entry.value];
        }
        assert table[..i + 1][..i] == table[..i];
        MovedBucket(moved, i);
      }
      assert table[..|table|] == table;
      MovedAll(moved);
    }

    /** Also repairs an overloaded table, as the one in the middle of an insertion. */
    method Rehash(count: nat)
      requires |table| == capacity && Denotes(hash, table, contents) && size == Total(table) == |contents|
      modifies this`table, this`capacity, this`moves
      ensures Valid() && capacity == (if count >= MinBuckets(size) then count else MinBuckets(size))
      ensures 4 * (size + 1) < 3 * (capacity + 1) && (3 * capacity <= 4 * (size + 1) || capacity == count)
      ensures moves == old(moves) + size
    {
      TruncationSuffices(size);
      var newCapacity := if count >= MinBuckets(size) then count else MinBuckets(size);
      var newTable := Redistribute(newCapacity);
      table, capacity, moves := newTable, newCapacity, moves + Total(newTable);
    }

    /** `moved` holds the entries of the first `i` buckets and the first `j` entries of the next one. */
    ghost predicate Moved(moved: map<K, V>, i: nat, j: nat)
      reads this
    {
      && (forall k :: k in moved ==> k in contents && moved[k] == contents[k] && capacity > 0 &&
                                     (Index(k) < i || (Index(k) == i < |table| &&
                                                                 j <= |table[i]| && InBucket(table[i][..j], k))))
      && (forall k :: k in contents && capacity > 0 && Index(k) < i ==> k in moved)
      && (i < |table| ==> j <= |table[i]| && forall l :: 0 <= l < j ==> table[i][l].key in moved)
    }

    lemma MovedOne(moved: map<K, V>, i: nat, j: nat)
      requires |table| == capacity && Denotes(hash, table, contents) && Moved(moved, i, j) && i < |table|
      requires j < |table[i]|
      ensures table[i][j].key !in moved && Moved(moved[table[i][j].key := table[i][j].value], i, j + 1)
    {
      assert Sound(hash, |table|, i, table[i], contents);
      var entry := table[i][j];
      var moved' := moved[entry.key := entry.value];
      assert forall l :: 0 <= l < j ==> table[i][..j][l] == table[i][l];
      assert table[i][..j + 1][j] == entry;
      forall k | k in moved'
        ensures Index(k) < i || (Index(k) == i && InBucket(table[i][..j + 1], k))
      {
        if k != entry.key && Index(k) == i {
          var l :| 0 <= l < j && table[i][..j][l].key == k;
          assert table[i][..j + 1][l].key == k;
        }
      }
    }

    lemma MovedBucket(moved: map<K, V>, i: nat)
      requires |table| == capacity && Denotes(hash, table, contents) && i < |table| && Moved(moved, i, |table[i]|)
      ensures Moved(moved, i + 1, 0)
    {
      forall k | k in contents && Index(k) < i + 1
        ensures k in moved
      {
        if Index(k) == i { assert InBucket(table[i], k); }
      }
    }

    lemma MovedAll(moved: map<K, V>)
      requires |table| == capacity && Denotes(hash, table, contents) && Moved(moved, |table|, 0)
      ensures moved == contents
    {
      assert forall k :: k in contents ==> capacity > 0 && Index(k) < |table|;
    }

    /** `std::ranges::max` over the chain lengths. */
    method LongestChain() returns (longest: nat)
      requires |table| > 0
      ensures (exists i :: 0 <= i < |table| && |table[i]| == longest)
      ensures forall i :: 0 <= i < |table| ==> |table[i]| <= longest
      ensures Total(table) <= |table| * longest
    {
      longest := |table[0]|;
      for i := 1 to |table|
        invariant exists l :: 0 <= l < |table| && |table[l]| == longest
        invariant forall l :: 0 <= l < i ==> |table[l]| <= longest
      {
        if |table[i]| > longest {
          longest := |table[i]|;
        }
      }
      TotalBound(table, longest);
    }

    /** The load factor and the length of the longest chain; a table without buckets has neither. */
    method GetStatistic() returns (loadFactor: real, longest: nat)
      requires Valid()
      ensures capacity == 0 ==> loadFactor == 0.0 && longest == 0
      ensures capacity > 0 ==>
                loadFactor == size as real / capacity as real && exists i :: 0 <= i < capacity && |table[i]| == longest
      ensures (forall i :: 0 <= i < capacity ==> |table[i]| <= longest) && size <= |table| * longest
      ensures loadFactor <= 0.75
    {
      if |table| == 0 {
        return 0.0, 0;
      }
      loadFactor := LoadFactor(size, capacity);
      LoadFactorBound(size, capacity);
      longest := LongestChain();
    }
  }

  // ----- runs

  datatype Operation<K, V> = Put(key: K, value: V) | Delete(key: K) | Resize(count: nat) | Get(key: K)

  function Apply<K, V>(m: map<K, V>, op: Operation<K, V>): map<K, V> {
    match op
    case Put(k, v) => m[k := v]
    case Delete(k) => m - {k}
    case Resize(_) => m
    case Get(_) => m
  }

  function ApplyAll<K, V>(m: map<K, V>, ops: seq<Operation<K, V>>): map<K, V> {
    if ops == [] then m else Apply(ApplyAll(m, ops[..|ops| - 1]), ops[|ops| - 1])
  }

  /** What a finite map answers: the value for `Get`, and whether something was removed for `Delete`. */
  function Answer<K, V>(m: map<K, V>, op: Operation<K, V>): (Option<V>, bool) {
    match op
    case Put(_, _) => (None, false)
    case Delete(k) => (None, k in m)
    case Resize(_) => (None, false)
    case Get(k) => (if k in m then Some(m[k]) else None, false)
  }

  function AllAnswers<K, V>(m: map<K, V>, ops: seq<Operation<K, V>>): seq<(Option<V>, bool)> {
    if ops == [] then [] else AllAnswers(m, ops[..|ops| - 1]) + [Answer(ApplyAll(m, ops[..|ops| - 1]), ops[|ops| - 1])]
  }

  function Puts<K, V>(ops: seq<Operation<K, V>>): nat {
    if ops == [] then 0 else Puts(ops[..|ops| - 1]) + if ops[|ops| - 1].Put? then 1 else 0
  }

  /** How many of the operations put something in. */
  lemma {:induction false} PutsIsCount<K, V>(ops: seq<Operation<K, V>>)
    ensures Puts(ops) == |set i | 0 <= i < |ops| && ops[i].Put?|
  {
    var all := set i | 0 <= i < |ops| && ops[i].Put?;
    if ops == [] {
      assert all == {};
    } else {
      var n := |ops| - 1;
      PutsIsCount(ops[..n]);
      var before := set i | 0 <= i < |ops[..n]| && ops[..n][i].Put?;
      assert all == before + if ops[n].Put? then {n} else {};
    }
  }

  ghost predicate Writes<K, V>(op: Operation<K, V>, k: K) {
    (op.Put? || op.Delete?) && op.key == k
  }

  ghost predicate NeverWritten<K, V>(ops: seq<Operation<K, V>>, k: K) {
    forall j :: 0 <= j < |ops| ==> !Writes(ops[j], k)
  }

  /** The last operation that writes `k` puts `v`. */
  ghost predicate LastPut<K, V>(ops: seq<Operation<K, V>>, k: K, v: V) {
    exists i :: 0 <= i < |ops| && ops[i] == Put(k, v) && NeverWritten(ops[i + 1..], k)
  }

  lemma WrittenNext<K, V>(ops: seq<Operation<K, V>>, op: Operation<K, V>, k: K, v: V)
    ensures NeverWritten(ops + [op], k) <==> NeverWritten(ops, k) && !Writes(op, k)
    ensures LastPut(ops + [op], k, v) <==> if Writes(op, k) then op == Put(k, v) else LastPut(ops, k, v)
  {
    var all := ops + [op];
    assert all[|ops|] == op && all[|ops| + 1..] == [];
    assert NeverWritten(all, k) ==> forall j :: 0 <= j < |ops| ==> !Writes(all[j], k);
    forall i | 0 <= i < |ops|
      ensures NeverWritten(all[i + 1..], k) <==> NeverWritten(ops[i + 1..], k) && !Writes(op, k)
      ensures all[i] == ops[i]
    {
      NeverWrittenNext(ops[i + 1..], op, k);
      assert all[i + 1..] == ops[i + 1..] + [op];
    }
  }

  lemma NeverWrittenNext<K, V>(ops: seq<Operation<K, V>>, op: Operation<K, V>, k: K)
    ensures NeverWritten(ops + [op], k) <==> NeverWritten(ops, k) && !Writes(op, k)
  {
    var all := ops + [op];
    assert all[|ops|] == op;
    assert forall j :: 0 <= j < |ops| ==> all[j] == ops[j];
  }

  /** After a run a key has the value last put, unless it was deleted since; if never written, what it had before. */
  lemma {:induction false} LastWriteCounts<K, V>(m: map<K, V>, ops: seq<Operation<K, V>>, k: K, v: V)
    ensures k in ApplyAll(m, ops) && ApplyAll(m, ops)[k] == v <==>
              LastPut(ops, k, v) || (NeverWritten(ops, k) && k in m && m[k] == v)
  {
    if ops != [] {
      hide LastPut, NeverWritten;
      var n := |ops| - 1;
      LastWriteCounts(m, ops[..n], k, v);
      WrittenNext(ops[..n], ops[n], k, v);
      assert ops == ops[..n] + [ops[n]];
    }
  }

  /** Looking a key up answers what it has at that time, and removing it answers whether it has anything. */
  lemma {:induction false} AnswersTell<K, V>(m: map<K, V>, ops: seq<Operation<K, V>>, i: nat, v: V)
    requires i < |ops|
    ensures |AllAnswers(m, ops)| == |ops|
    ensures var now, answer := ApplyAll(m, ops[..i]), AllAnswers(m, ops)[i];
            && (ops[i].Get? ==> (answer.0 == Some(v) <==> ops[i].key in now && now[ops[i].key] == v))
            && (ops[i].Delete? ==> (answer.1 <==> ops[i].key in now))
  {
    var n := |ops| - 1;
    AnswersSize(m, ops[..n]);
    if i < n {
      assert ops[..n][..i] == ops[..i];
      AnswersTell(m, ops[..n], i, v);
    }
  }

  lemma {:induction false} AnswersSize<K, V>(m: map<K, V>, ops: seq<Operation<K, V>>)
    ensures |AllAnswers(m, ops)| == |ops|
  {
    if ops != [] { AnswersSize(m, ops[..|ops| - 1]); }
  }

  method Perform<K(==), V>(t: HashTable<K, V>, op: Operation<K, V>) returns (answer: (Option<V>, bool))
    requires t.Valid() && t.capacity > 0
    modifies t
    ensures t.Valid() && t.capacity > 0 && t.contents == Apply(old(t.contents), op)
    ensures answer == Answer(old(t.contents), op)
    ensures t.size <= old(t.size) + if op.Put? then 1 else 0
    ensures !op.Resize? ==>
              t.capacity == if Overloaded(t.size, old(t.capacity)) then 2 * old(t.capacity) else old(t.capacity)
    ensures !op.Resize? ==> t.moves == old(t.moves) + if Overloaded(t.size, old(t.capacity)) then t.size else 0
  {
    hide Denotes, Total;
    var value, removed := None, false;
    match op {
      case Put(k, v) => t.Insert(k, v);
      case Delete(k) => removed := t.Remove(k);
      case Resize(count) => TruncationSuffices(t.size); t.Rehash(count);
      case Get(k) => value := t.Find(k);
    }
    return (value, removed);
  }

  /** For every hash function and every run, the table answers as the finite map would and ends up standing for the same
      map. Unless the client resizes the table, rehashing is paid for by the insertions: at most 8/3 moves for each. */
  method Run<K(==), V>(t: HashTable<K, V>, ops: seq<Operation<K, V>>) returns (answers: seq<(Option<V>, bool)>)
    requires t.Valid() && t.capacity > 0
    modifies t
    ensures t.Valid() && t.capacity > 0 && t.contents == ApplyAll(old(t.contents), ops)
    ensures answers == AllAnswers(old(t.contents), ops)
    ensures (forall i :: 0 <= i < |ops| ==> !ops[i].Resize?) ==>
              3 * (t.moves - old(t.moves)) <= 8 * (old(t.size) + Puts(ops))
  {
    hide Denotes, Total;
    answers := [];
    for i := 0 to |ops|
      invariant t.Valid() && t.capacity > 0 && t.contents == ApplyAll(old(t.contents), ops[..i])
      invariant answers == AllAnswers(old(t.contents), ops[..i])
      invariant t.size <= old(t.size) + Puts(ops[..i])
      invariant (forall l :: 0 <= l < i ==> !ops[l].Resize?) ==> t.moves + old(t.capacity) <= old(t.moves) + t.capacity
      invariant (forall l :: 0 <= l < i ==> !ops[l].Resize?) ==>
                  t.capacity == old(t.capacity) || 3 * t.capacity < 8 * (old(t.size) + Puts(ops[..i]))
    {
      var answer := Perform(t, ops[i]);
      answers := answers + [answer];
      assert ops[..i + 1][..i] == ops[..i];
    }
    assert ops[..|ops|] == ops;
  }
}
