/**
 * Trees whose keys are generated: a monotonic u64 counter, seeded from the
 * greatest key already stored, mints the key of every insert made through the
 * tree, through a batch built from it, or inside a transaction on it.
 */
module KeyGenerating {
  import opened Wrappers
  import opened Sled

  /** The message `initialize` aborts with when the tree cannot be read. */
  const LAST_FAILED: string := "KeyGenerating Counter failed to access sled Tree."

  /** An unrecoverable abort (`expect` failing). */
  datatype Panic = Panic(message: string)

  /** `x + 1` on a u64 with wrap-around, as `fetch_add(1, ..)` computes it. */
  function WrappingIncrement(x: U64): (r: U64)
    ensures r == (x + 1) % U64_LIMIT
  {
    if x == U64_MAX then 0 else x + 1
  }

  /** The counter's value after `n` keys have been drawn from `start`. */
  ghost function Advance(start: U64, n: nat): U64
  {
    if n == 0 then start else WrappingIncrement(Advance(start, n - 1))
  }

  /** The first `n` keys a counter started at `start` hands out, in order. */
  ghost function Successors(start: U64, n: nat): (keys: seq<U64>)
    ensures |keys| == n
  {
    if n == 0 then [] else Successors(start, n - 1) + [Advance(start, n - 1)]
  }

  /** Until the counter wraps, the keys it hands out are `start`, `start + 1`, ... */
  lemma {:induction false} SuccessorsConsecutive(start: U64, n: nat)
    requires start + n <= U64_LIMIT
    ensures forall i :: 0 <= i < n ==> Successors(start, n)[i] == start + i
    ensures start + n < U64_LIMIT ==> Advance(start, n) == start + n
  {
    if n > 0 {
      SuccessorsConsecutive(start, n - 1);
    }
  }

  /** Until the counter wraps, the keys it hands out strictly increase, so no two are equal. */
  lemma SuccessorsStrictlyIncrease(start: U64, n: nat)
    requires start + n <= U64_LIMIT
    ensures forall i, j :: 0 <= i < j < n ==> Successors(start, n)[i] < Successors(start, n)[j]
  {
    SuccessorsConsecutive(start, n);
  }

  /** The counter's first value for a tree whose `last()` yielded `last`. */
  ghost function SeedOf<V>(last: Option<(U64, V)>): U64
  {
    match last
    case None => 0
    case Some((key, _)) => WrappingIncrement(key)
  }

  /**
   * Unless the tree holds the key u64::MAX, the seed is the least key above
   * every key in the tree: 0 for an empty tree, the greatest key plus one
   * otherwise.
   */
  lemma SeedAboveExisting<V>(m: map<U64, V>)
    requires U64_MAX !in m
    ensures forall k :: k in m ==> k < SeedOf(LastEntry(m))
    ensures m.Keys == {} ==> SeedOf(LastEntry(m)) == 0
    ensures m.Keys != {} ==> SeedOf(LastEntry(m)) - 1 in m
  {
  }

  /** When the tree holds u64::MAX, `key + 1` wraps and the counter starts again at 0. */
  lemma SeedWrapsAtMax<V>(m: map<U64, V>)
    requires U64_MAX in m
    ensures SeedOf(LastEntry(m)) == 0
  {
  }

  /**
   * Every key minted after initialisation lies above every key the tree held
   * then, as long as neither `key + 1` nor the counter has wrapped.
   */
  lemma MintedAboveInitial<V>(initial: map<U64, V>, n: nat)
    requires U64_MAX !in initial
    requires SeedOf(LastEntry(initial)) + n <= U64_LIMIT
    ensures forall i, k :: 0 <= i < n && k in initial ==> k < Successors(SeedOf(LastEntry(initial)), n)[i]
  {
    SeedAboveExisting(initial);
    SuccessorsConsecutive(SeedOf(LastEntry(initial)), n);
  }

  /** The tree `m` after a batch inserting `values` under keys minted from `start` is applied. */
  ghost function AfterMintedBatch<V>(m: map<U64, V>, start: U64, values: seq<V>): map<U64, V>
  {
    ApplyOps(m, Inserts(Successors(start, |values|), values))
  }

  /**
   * A batch of inserts under consecutively minted keys `start`, `start + 1`, ...
   * adds exactly those keys to the tree.
   */
  lemma MintedBatchKeys<V>(m: map<U64, V>, start: U64, values: seq<V>)
    requires start + |values| <= U64_LIMIT
    ensures forall k :: k in AfterMintedBatch(m, start, values) <==> k in m || start <= k < start + |values|
  {
    var keys := Successors(start, |values|);
    SuccessorsStrictlyIncrease(start, |values|);
    ApplyDistinctInserts(m, keys, values);
    SuccessorsRange(start, |values|);
  }

  /** Such a batch stores its i-th value at key `start + i`. */
  lemma MintedBatchValues<V>(m: map<U64, V>, start: U64, values: seq<V>)
    requires start + |values| <= U64_LIMIT
    ensures forall k :: start <= k < start + |values| ==>
              k in AfterMintedBatch(m, start, values) && AfterMintedBatch(m, start, values)[k] == values[k - start]
  {
    forall k | start <= k < start + |values|
      ensures k in AfterMintedBatch(m, start, values) && AfterMintedBatch(m, start, values)[k] == values[k - start]
    {
      MintedBatchValueAt(m, start, values, k - start);
    }
  }

  lemma MintedBatchValueAt<V>(m: map<U64, V>, start: U64, values: seq<V>, i: nat)
    requires start + |values| <= U64_LIMIT && i < |values|
    ensures start + i in AfterMintedBatch(m, start, values) && AfterMintedBatch(m, start, values)[start + i] == values[i]
  {
    var keys := Successors(start, |values|);
    SuccessorsStrictlyIncrease(start, |values|);
    ApplyDistinctInserts(m, keys, values);
    SuccessorsConsecutive(start, |values|);
    assert keys[i] == start + i;
  }

  /** Such a batch leaves every entry under a key outside `start .. start + |values| - 1` as it was. */
  lemma MintedBatchKeepsOthers<V>(m: map<U64, V>, start: U64, values: seq<V>)
    requires start + |values| <= U64_LIMIT
    ensures forall k :: k in m && !(start <= k < start + |values|) ==>
              k in AfterMintedBatch(m, start, values) && AfterMintedBatch(m, start, values)[k] == m[k]
  {
    var keys := Successors(start, |values|);
    SuccessorsStrictlyIncrease(start, |values|);
    ApplyDistinctInserts(m, keys, values);
    SuccessorsRange(start, |values|);
  }

  /** A batch of two minted inserts writes the first value at `start` and the second at `start + 1`. */
  lemma MintedPairStored<V>(m: map<U64, V>, start: U64, a: V, b: V)
    requires start < U64_MAX
    ensures AfterMintedBatch(m, start, [a, b]) == m[start := a][start + 1 := b]
  {
    var applied := AfterMintedBatch(m, start, [a, b]);
    var expected := m[start := a][start + 1 := b];
    MintedBatchKeys(m, start, [a, b]);
    MintedBatchValues(m, start, [a, b]);
    MintedBatchKeepsOthers(m, start, [a, b]);
    assert forall k :: k in applied <==> k in expected;
    forall k | k in applied
      ensures applied[k] == expected[k]
    {
      if k == start || k == start + 1 {
        assert applied[k] == [a, b][k - start];
      }
    }
  }

  /** Until the counter wraps, the keys it hands out are exactly those from `start` up to `start + n`. */
  lemma SuccessorsRange(start: U64, n: nat)
    requires start + n <= U64_LIMIT
    ensures forall k :: k in Successors(start, n) <==> start <= k < start + n
  {
    var keys := Successors(start, n);
    SuccessorsConsecutive(start, n);
    forall k | start <= k < start + n
      ensures k in keys
    {
      assert keys[k - start] == k;
    }
  }

  /** The `Counter` key generator: an atomic u64, here a plain field. */
  class Counter {
    var value: U64
    /** The value the counter was created with. */
    ghost const seed: U64
    /** Every key handed out so far, oldest first. */
    ghost var issued: seq<U64>

    ghost predicate Valid()
      reads this
    {
      issued == Successors(seed, |issued|) && value == Advance(seed, |issued|)
    }

    constructor (start: U64)
      ensures Valid() && seed == start && value == start && issued == []
    {
      value := start;
      seed := start;
      issued := [];
    }

    /**
     * Reads the tree's greatest entry and starts just above its key, or at 0
     * for an empty tree; a failed read aborts instead of falling back to 0.
     */
    static method Initialize<V>(tree: Tree<V>, fault: Option<Error>) returns (r: Result<Counter, Panic>)
      ensures fault.Some? ==> r == Failure(Panic(LAST_FAILED))
      ensures fault.None? ==> r.Success? && fresh(r.value) && r.value.Valid() && r.value.issued == []
      ensures fault.None? ==> r.value.seed == r.value.value == SeedOf(LastEntry(tree.entries))
    {
      var last := tree.Last(fault);
      match last {
        case Failure(_) =>
          r := Failure(Panic(LAST_FAILED));
        case Success(Some((key, _))) =>
          var counter := new Counter(WrappingIncrement(key));
          r := Success(counter);
        case Success(None) =>
          var counter := new Counter(0);
          r := Success(counter);
      }
    }

    /** Returns the current value and advances the counter by one (wrapping at u64::MAX). */
    method NextKey() returns (key: U64)
      requires Valid()
      modifies this
      ensures Valid()
      ensures key == old(value) && value == WrappingIncrement(old(value))
      ensures issued == old(issued) + [key]
    {
      key := value;
      value := WrappingIncrement(value);
      issued := issued + [key];
    }
  }

  /** A tree together with the generator that mints its keys. */
  class KeyGeneratingTree<V> {
    const keyGenerator: Counter
    const inner: Tree<V>
    /** The entries the tree held when the generator was initialised. */
    ghost const initial: map<U64, V>

    ghost predicate Valid()
      reads this, keyGenerator
    {
      keyGenerator.Valid() && keyGenerator.seed == SeedOf(LastEntry(initial))
    }

    constructor (keyGenerator: Counter, inner: Tree<V>, ghost initial: map<U64, V>)
      requires keyGenerator.Valid() && keyGenerator.seed == SeedOf(LastEntry(initial))
      ensures this.keyGenerator == keyGenerator && this.inner == inner && this.initial == initial
      ensures Valid()
    {
      this.keyGenerator := keyGenerator;
      this.inner := inner;
      this.initial := initial;
    }

    /** Wraps an opened tree, initialising a fresh generator from its contents. */
    static method Open(tree: Tree<V>, fault: Option<Error>) returns (r: Result<KeyGeneratingTree<V>, Panic>)
      ensures fault.Some? ==> r == Failure(Panic(LAST_FAILED))
      ensures fault.None? ==> r.Success? && fresh(r.value) && fresh(r.value.keyGenerator)
      ensures fault.None? ==> r.value.Valid() && r.value.inner == tree && r.value.initial == tree.entries
      ensures fault.None? ==> r.value.keyGenerator.issued == []
      ensures fault.None? ==> r.value.keyGenerator.value == SeedOf(LastEntry(tree.entries))
    {
      var generator := Counter.Initialize(tree, fault);
      match generator {
        case Failure(p) =>
          r := Failure(p);
        case Success(counter) =>
          var t := new KeyGeneratingTree(counter, tree, tree.entries);
          r := Success(t);
      }
    }

    /**
     * Mints a key and writes `value` there, returning the key and the value it
     * replaced. The key is consumed even when the write fails.
     */
    method Insert(value: V, fault: Option<Error>) returns (r: Result<(U64, Option<V>), Error>)
      requires Valid()
      modifies keyGenerator, inner
      ensures Valid()
      ensures keyGenerator.value == WrappingIncrement(old(keyGenerator.value))
      ensures keyGenerator.issued == old(keyGenerator.issued) + [old(keyGenerator.value)]
      ensures fault.None? ==> r == Success((old(keyGenerator.value), Lookup(old(inner.entries), old(keyGenerator.value))))
      ensures fault.None? ==> inner.entries == old(inner.entries)[old(keyGenerator.value) := value]
      ensures fault.Some? ==> r == Failure(fault.value) && inner.entries == old(inner.entries)
    {
      var key := keyGenerator.NextKey();
      var res := inner.Insert(key, value, fault);
      match res {
        case Success(previous) => r := Success((key, previous));
        case Failure(e) => r := Failure(e);
      }
    }

    /** Writes at a caller-chosen key; the generator is not consulted and does not move. */
    method InsertWithKey(key: U64, value: V, fault: Option<Error>) returns (r: Result<Option<V>, Error>)
      modifies inner
      ensures unchanged(keyGenerator)
      ensures fault.None? ==> r == Success(Lookup(old(inner.entries), key)) && inner.entries == old(inner.entries)[key := value]
      ensures fault.Some? ==> r == Failure(fault.value) && inner.entries == old(inner.entries)
    {
      r := inner.Insert(key, value, fault);
    }

    /** Mints a key without writing anything. */
    method NextKey() returns (key: U64)
      requires Valid()
      modifies keyGenerator
      ensures Valid()
      ensures key == old(keyGenerator.value) && keyGenerator.value == WrappingIncrement(key)
      ensures keyGenerator.issued == old(keyGenerator.issued) + [key]
    {
      key := keyGenerator.NextKey();
    }

    /**
     * Mints a key, builds the value from that very key and writes it there,
     * returning the key and the value it replaced.
     */
    method InsertFn(f: U64 -> V, fault: Option<Error>) returns (r: Result<(U64, Option<V>), Error>)
      requires Valid()
      modifies keyGenerator, inner
      ensures Valid()
      ensures keyGenerator.value == WrappingIncrement(old(keyGenerator.value))
      ensures keyGenerator.issued == old(keyGenerator.issued) + [old(keyGenerator.value)]
      ensures fault.None? ==> r == Success((old(keyGenerator.value), Lookup(old(inner.entries), old(keyGenerator.value))))
      ensures fault.None? ==> inner.entries == old(inner.entries)[old(keyGenerator.value) := f(old(keyGenerator.value))]
      ensures fault.None? ==> inner.entries[r.value.0] == f(r.value.0)
      ensures fault.Some? ==> r == Failure(fault.value) && inner.entries == old(inner.entries)
    {
      var key := keyGenerator.NextKey();
      var value := f(key);
      var res := InsertWithKey(key, value, fault);
      match res {
        case Success(previous) => r := Success((key, previous));
        case Failure(e) => r := Failure(e);
      }
    }

    /**
     * The view handed to the caller's closure for one transaction attempt: it
     * writes through a fresh attempt on the tree and mints from this tree's
     * own generator.
     */
    method Transaction() returns (tx: KeyGeneratingTransactionalTree<V>)
      ensures fresh(tx) && fresh(tx.inner)
      ensures tx.keyGenerator == keyGenerator && tx.inner.tree == inner && tx.inner.writes == []
    {
      var attempt := inner.BeginTransaction();
      var generator := KeyGenerator();
      tx := new KeyGeneratingTransactionalTree(generator, attempt);
    }

    /** The generator itself, shared and never copied. */
    method KeyGenerator() returns (generator: Counter)
      ensures generator == keyGenerator
    {
      generator := keyGenerator;
    }

    /** An empty batch that mints from this tree's generator. */
    method NewBatch() returns (batch: KeyGeneratingBatch<V>)
      ensures fresh(batch) && batch.keyGenerator == keyGenerator && batch.ops == []
    {
      var generator := KeyGenerator();
      batch := new KeyGeneratingBatch(generator);
    }

    /** Commits the batch's queued ops in order, all together, or none of them on failure. */
    method ApplyBatch(batch: KeyGeneratingBatch<V>, fault: Option<Error>) returns (r: Result<(), Error>)
      modifies inner
      ensures unchanged(keyGenerator)
      ensures fault.None? ==> r == Success(()) && inner.entries == ApplyOps(old(inner.entries), batch.ops)
      ensures fault.Some? ==> r == Failure(fault.value) && inner.entries == old(inner.entries)
    {
      r := inner.ApplyBatch(batch.ops, fault);
    }
  }

  /** A write-only batch whose inserts take their keys from a tree's generator. */
  class KeyGeneratingBatch<V> {
    const keyGenerator: Counter
    /** The queued writes, oldest first. */
    var ops: seq<Op<V>>

    constructor (keyGenerator: Counter)
      ensures this.keyGenerator == keyGenerator && ops == []
    {
      this.keyGenerator := keyGenerator;
      ops := [];
    }

    /** Mints a key and queues an insert of `value` there; the tree is not touched. */
    method Insert(value: V)
      requires keyGenerator.Valid()
      modifies this, keyGenerator
      ensures keyGenerator.Valid()
      ensures keyGenerator.value == WrappingIncrement(old(keyGenerator.value))
      ensures keyGenerator.issued == old(keyGenerator.issued) + [old(keyGenerator.value)]
      ensures ops == old(ops) + [Op.Insert(old(keyGenerator.value), value)]
    {
      var key := keyGenerator.NextKey();
      ops := ops + [Op.Insert(key, value)];
    }

    /** Queues a removal of `key`; neither the tree nor the generator is touched. */
    method Remove(key: U64)
      modifies this
      ensures unchanged(keyGenerator)
      ensures ops == old(ops) + [Op.Remove(key)]
    {
      ops := ops + [Op.Remove(key)];
    }
  }

  /** A transaction attempt's view, minting from the same generator as the tree. */
  class KeyGeneratingTransactionalTree<V> {
    const keyGenerator: Counter
    const inner: TransactionalTree<V>

    constructor (keyGenerator: Counter, inner: TransactionalTree<V>)
      ensures this.keyGenerator == keyGenerator && this.inner == inner
    {
      this.keyGenerator := keyGenerator;
      this.inner := inner;
    }

    /**
     * Mints a key and writes `value` there within the attempt. The key is
     * consumed whether or not the write, or the attempt, goes through.
     */
    method Insert(value: V, fault: Option<UnabortableTransactionError>)
      returns (r: Result<Option<V>, UnabortableTransactionError>)
      requires keyGenerator.Valid()
      modifies keyGenerator, inner
      ensures keyGenerator.Valid()
      ensures keyGenerator.value == WrappingIncrement(old(keyGenerator.value))
      ensures keyGenerator.issued == old(keyGenerator.issued) + [old(keyGenerator.value)]
      ensures fault.None? ==> r == Success(Lookup(old(inner.View()), old(keyGenerator.value)))
      ensures fault.None? ==> inner.writes == old(inner.writes) + [Op.Insert(old(keyGenerator.value), value)]
      ensures fault.None? ==> inner.View() == old(inner.View())[old(keyGenerator.value) := value]
      ensures fault.Some? ==> r == Failure(fault.value) && inner.writes == old(inner.writes)
    {
      var key := keyGenerator.NextKey();
      r := inner.Insert(key, value, fault);
    }

    /** Replays a batch's queued ops, in order, within the attempt. */
    method ApplyBatch(batch: KeyGeneratingBatch<V>, fault: Option<UnabortableTransactionError>)
      returns (r: Result<(), UnabortableTransactionError>)
      modifies inner
      ensures unchanged(keyGenerator)
      ensures fault.None? ==> r == Success(()) && inner.writes == old(inner.writes) + batch.ops
      ensures fault.None? ==> inner.View() == ApplyOps(old(inner.View()), batch.ops)
      ensures fault.Some? ==> r == Failure(fault.value) && inner.writes == old(inner.writes)
    {
      r := inner.ApplyBatch(batch.ops, fault);
    }
  }

  /**
   * Every key a tree's generator has handed out lies above every key present
   * at initialisation, and they strictly increase, unless a u64 wrapped.
   */
  lemma IssuedAboveInitial<V>(t: KeyGeneratingTree<V>)
    requires t.Valid()
    requires U64_MAX !in t.initial
    requires t.keyGenerator.seed + |t.keyGenerator.issued| <= U64_LIMIT
    ensures forall i, k :: 0 <= i < |t.keyGenerator.issued| && k in t.initial ==> k < t.keyGenerator.issued[i]
    ensures forall i, j :: 0 <= i < j < |t.keyGenerator.issued| ==> t.keyGenerator.issued[i] < t.keyGenerator.issued[j]
  {
    MintedAboveInitial(t.initial, |t.keyGenerator.issued|);
    SuccessorsStrictlyIncrease(t.keyGenerator.seed, |t.keyGenerator.issued|);
  }

  /** The usage example: two inserts into a fresh, empty tree get keys 0 and 1. */
  method FirstInsertsOnEmptyTree() returns (firstKey: U64, secondKey: U64, atFirst: Option<int>, atSecond: Option<int>)
    ensures firstKey == 0 && secondKey == 1
    ensures atFirst == Some(5) && atSecond == Some(6)
  {
    var db := new Tree<int>(map[]);
    var handle := KeyGeneratingTree.Open(db, None);
    var tree := handle.value;
    var first := tree.Insert(5, None);
    var second := tree.Insert(6, None);
    firstKey, secondKey := first.value.0, second.value.0;
    atFirst := tree.inner.Get(0);
    atSecond := tree.inner.Get(1);
  }

  /**
   * A transaction attempt that inserts and is then discarded (a conflict),
   * followed by a retry that commits: the retry writes under the next key, and
   * the discarded attempt's key is never written.
   */
  method RetryAfterConflict<V>(t: KeyGeneratingTree<V>, value: V)
    requires t.Valid()
    requires t.keyGenerator.value < U64_MAX
    modifies t.keyGenerator, t.inner
    ensures t.Valid()
    ensures t.keyGenerator.issued == old(t.keyGenerator.issued) + [old(t.keyGenerator.value), old(t.keyGenerator.value) + 1]
    ensures t.inner.entries == old(t.inner.entries)[old(t.keyGenerator.value) + 1 := value]
  {
    var discarded := t.Transaction();
    var _ := discarded.Insert(value, None);
    var retried := t.Transaction();
    var _ := retried.Insert(value, None);
    t.inner.Commit(retried.inner);
  }

  /**
   * Two inserts queued on a batch reach the tree only when the batch is
   * applied; a failed apply leaves the tree as it was, with both keys spent.
   */
  method BatchOfTwo<V>(t: KeyGeneratingTree<V>, a: V, b: V, fault: Option<Error>) returns (r: Result<(), Error>)
    requires t.Valid()
    requires t.keyGenerator.value < U64_MAX
    modifies t.keyGenerator, t.inner
    ensures t.Valid()
    ensures t.keyGenerator.issued == old(t.keyGenerator.issued) + [old(t.keyGenerator.value), old(t.keyGenerator.value) + 1]
    ensures fault.None? ==> r.Success? && t.inner.entries == old(t.inner.entries)[old(t.keyGenerator.value) := a][old(t.keyGenerator.value) + 1 := b]
    ensures fault.Some? ==> r.Failure? && t.inner.entries == old(t.inner.entries)
  {
    var batch := t.NewBatch();
    batch.Insert(a);
    batch.Insert(b);
    assert t.inner.entries == old(t.inner.entries);
    ghost var k: U64 := old(t.keyGenerator.value);
    assert Successors(k, 2) == [k, k + 1];
    assert batch.ops == Inserts(Successors(k, 2), [a, b]);
    MintedPairStored(t.inner.entries, k, a, b);
    r := t.ApplyBatch(batch, fault);
  }
}
