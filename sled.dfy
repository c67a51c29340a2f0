/**
 * The part of the sled key/value store that the key-generating layer consumes,
 * abstracted as a map from u64 keys to values. Keys are the numbers
 * themselves: the byte order of serialised keys is not part of this model, and
 * `last()` is taken to yield the numerically greatest key.
 *
 * I/O failures the store may report on a write or on `last()` are passed in as
 * `fault` parameters; reads and commits are taken to succeed.
 */
module Sled {
  import opened Wrappers

  const U64_LIMIT: int := 0x1_0000_0000_0000_0000
  const U64_MAX: int := 0xFFFF_FFFF_FFFF_FFFF

  /** Rust's `u64`. */
  type U64 = x: int | 0 <= x < U64_LIMIT

  /** `sled::Error`: its variants are not distinguished here. */
  datatype Error = Io(reason: string)

  /** `sled::transaction::UnabortableTransactionError`. */
  datatype UnabortableTransactionError = Conflict | Storage(cause: Error)

  /** One queued write of a batch or a transaction. */
  datatype Op<V> = Insert(key: U64, value: V) | Remove(key: U64)

  /** The value stored at `key`, as `get` returns it. */
  function Lookup<V>(m: map<U64, V>, key: U64): Option<V>
  {
    if key in m then Some(m[key]) else None
  }

  function ApplyOp<V>(m: map<U64, V>, op: Op<V>): map<U64, V>
  {
    match op
    case Insert(k, v) => m[k := v]
    case Remove(k) => m - {k}
  }

  /** The store after the ops are carried out one after the other, first to last. */
  function ApplyOps<V>(m: map<U64, V>, ops: seq<Op<V>>): map<U64, V>
    decreases |ops|
  {
    if ops == [] then m else ApplyOps(ApplyOp(m, ops[0]), ops[1..])
  }

  /** Carrying out `a + b` is carrying out `a`, then `b`. */
  lemma {:induction false} ApplyOpsAppend<V>(m: map<U64, V>, a: seq<Op<V>>, b: seq<Op<V>>)
    ensures ApplyOps(m, a + b) == ApplyOps(ApplyOps(m, a), b)
    decreases |a|
  {
    if a == [] {
      assert a + b == b;
    } else {
      assert (a + b)[0] == a[0];
      assert (a + b)[1..] == a[1..] + b;
      ApplyOpsAppend(ApplyOp(m, a[0]), a[1..], b);
    }
  }

  /** The inserts pairing `keys[i]` with `values[i]`, in order. */
  function Inserts<V>(keys: seq<U64>, values: seq<V>): (ops: seq<Op<V>>)
    requires |keys| == |values|
    ensures |ops| == |keys|
    ensures forall i :: 0 <= i < |ops| ==> ops[i] == Op.Insert(keys[i], values[i])
  {
    if keys == [] then [] else [Op.Insert(keys[0], values[0])] + Inserts(keys[1..], values[1..])
  }

  /**
   * Inserting under pairwise distinct keys stores every value at its own key
   * and leaves every other entry as it was.
   */
  lemma {:induction false} ApplyDistinctInserts<V>(m: map<U64, V>, keys: seq<U64>, values: seq<V>)
    requires |keys| == |values|
    requires forall i, j :: 0 <= i < j < |keys| ==> keys[i] != keys[j]
    ensures forall k :: k in ApplyOps(m, Inserts(keys, values)) <==> k in m || k in keys
    ensures forall i :: 0 <= i < |keys| ==> ApplyOps(m, Inserts(keys, values))[keys[i]] == values[i]
    ensures forall k :: k in m && k !in keys ==> ApplyOps(m, Inserts(keys, values))[k] == m[k]
    decreases |keys|
  {
    if keys != [] {
      var m' := m[keys[0] := values[0]];
      ApplyDistinctInserts(m', keys[1..], values[1..]);
      var ops := Inserts(keys, values);
      assert ops[0] == Op.Insert(keys[0], values[0]);
      assert ops[1..] == Inserts(keys[1..], values[1..]);
      assert ApplyOps(m, ops) == ApplyOps(m', ops[1..]);
      var r := ApplyOps(m, ops);
      assert forall k :: k in keys <==> k == keys[0] || k in keys[1..];
      forall i | 0 <= i < |keys|
        ensures r[keys[i]] == values[i]
      {
        if i == 0 {
          assert keys[0] !in keys[1..] by {
            forall j | 0 <= j < |keys[1..]| ensures keys[1..][j] != keys[0] {
              assert keys[1..][j] == keys[j + 1];
            }
          }
        } else {
          assert keys[i] == keys[1..][i - 1];
        }
      }
    }
  }

  /** The greatest of a non-empty set of keys. */
  ghost function Greatest(keys: set<U64>): (g: U64)
    requires keys != {}
    ensures g in keys
    ensures forall k :: k in keys ==> k <= g
  {
    var x :| x in keys;
    var others := keys - {x};
    assert forall k :: k in keys ==> k == x || k in others;
    if others == {} then x
    else
      var rest := Greatest(others);
      if x < rest then rest else x
  }

  /** What `Tree::last` yields: the entry with the greatest key, or none when the tree is empty. */
  ghost function LastEntry<V>(m: map<U64, V>): (r: Option<(U64, V)>)
    ensures r.None? <==> m.Keys == {}
    ensures r.Some? ==> r.value.0 in m && m[r.value.0] == r.value.1
    ensures r.Some? ==> forall k :: k in m ==> k <= r.value.0
  {
    if m.Keys == {} then None else var k := Greatest(m.Keys); Some((k, m[k]))
  }

  /** A sled tree (one partition of the database), with its entries as a map. */
  class Tree<V> {
    var entries: map<U64, V>

    constructor (entries: map<U64, V>)
      ensures this.entries == entries
    {
      this.entries := entries;
    }

    method Get(key: U64) returns (r: Option<V>)
      ensures r == Lookup(entries, key)
    {
      r := Lookup(entries, key);
    }

    /** Writes `value` at `key` and returns what was there before, unless the store fails. */
    method Insert(key: U64, value: V, fault: Option<Error>) returns (r: Result<Option<V>, Error>)
      modifies this
      ensures fault.None? ==> r == Success(Lookup(old(entries), key)) && entries == old(entries)[key := value]
      ensures fault.Some? ==> r == Failure(fault.value) && entries == old(entries)
    {
      if fault.Some? {
        r := Failure(fault.value);
      } else {
        r := Success(Lookup(entries, key));
        entries := entries[key := value];
      }
    }

    /** The entry with the greatest key, or the store's error. */
    method Last(fault: Option<Error>) returns (r: Result<Option<(U64, V)>, Error>)
      ensures fault.Some? ==> r == Failure(fault.value)
      ensures fault.None? ==> r == Success(LastEntry(entries))
    {
      if fault.Some? {
        return Failure(fault.value);
      }
      if entries.Keys == {} {
        return Success(None);
      }
      ghost var g := Greatest(entries.Keys);
      assert g in entries && forall j :: j in entries ==> j <= g;
      var k :| k in entries && forall j :: j in entries ==> j <= k;
      assert k == g;
      r := Success(Some((k, entries[k])));
    }

    /** Commits a batch atomically: all of its ops take effect, in order, or none do. */
    method ApplyBatch(ops: seq<Op<V>>, fault: Option<Error>) returns (r: Result<(), Error>)
      modifies this
      ensures fault.None? ==> r == Success(()) && entries == ApplyOps(old(entries), ops)
      ensures fault.Some? ==> r == Failure(fault.value) && entries == old(entries)
    {
      if fault.Some? {
        r := Failure(fault.value);
      } else {
        r := Success(());
        entries := ApplyOps(entries, ops);
      }
    }

    /** Starts one transaction attempt: a fresh view with no writes yet. */
    method BeginTransaction() returns (tx: TransactionalTree<V>)
      ensures fresh(tx) && tx.tree == this && tx.writes == []
    {
      tx := new TransactionalTree(this);
    }

    /** Commits an attempt: its writes take effect together. */
    method Commit(tx: TransactionalTree<V>)
      requires tx.tree == this
      modifies this
      ensures entries == ApplyOps(old(entries), tx.writes)
    {
      entries := ApplyOps(entries, tx.writes);
    }
  }

  /** The view one transaction attempt writes through; its writes reach the tree only on commit. */
  class TransactionalTree<V> {
    const tree: Tree<V>
    var writes: seq<Op<V>>

    /** The tree as this attempt sees it. */
    ghost function View(): map<U64, V>
      reads this, tree
    {
      ApplyOps(tree.entries, writes)
    }

    constructor (tree: Tree<V>)
      ensures this.tree == tree && writes == []
    {
      this.tree := tree;
      writes := [];
    }

    method Insert(key: U64, value: V, fault: Option<UnabortableTransactionError>)
      returns (r: Result<Option<V>, UnabortableTransactionError>)
      modifies this
      ensures fault.None? ==> r == Success(Lookup(old(View()), key))
      ensures fault.None? ==> writes == old(writes) + [Op.Insert(key, value)]
      ensures fault.None? ==> View() == old(View())[key := value]
      ensures fault.Some? ==> r == Failure(fault.value) && writes == old(writes)
    {
      if fault.Some? {
        r := Failure(fault.value);
      } else {
        r := Success(Lookup(ApplyOps(tree.entries, writes), key));
        ApplyOpsAppend(tree.entries, writes, [Op.Insert(key, value)]);
        writes := writes + [Op.Insert(key, value)];
      }
    }

    method ApplyBatch(ops: seq<Op<V>>, fault: Option<UnabortableTransactionError>)
      returns (r: Result<(), UnabortableTransactionError>)
      modifies this
      ensures fault.None? ==> r == Success(()) && writes == old(writes) + ops
      ensures fault.None? ==> View() == ApplyOps(old(View()), ops)
      ensures fault.Some? ==> r == Failure(fault.value) && writes == old(writes)
    {
      if fault.Some? {
        r := Failure(fault.value);
      } else {
        r := Success(());
        ApplyOpsAppend(tree.entries, writes, ops);
        writes := writes + ops;
      }
    }
  }
}
