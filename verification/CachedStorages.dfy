/** The key-value store of the chain ledger behind a cache that may forget anything. */
module CachedStorages {
  import opened Types

  datatype Key = TransactionMeta(hash: Hash) | BlockTxSet(height: nat) | BlockHash(hash: Hash) | ChainMetaKey

  /** Nothing is the empty byte string, which stores nothing. */
  datatype Val =
    | Nothing
    | TxMeta(blockHeight: nat, blockHash: Hash, index: nat)
    | TxHashes(hashes: seq<Hash>)
    | Height(height: nat)
    | ChainMeta(head: nat, headHash: Hash)

  type Store = map<Key, Val>

  datatype Op = Put(key: Key, val: Val) | Delete(key: Key)

  function Applied(s: Store, op: Op): Store {
    if op.Put? && !op.val.Nothing? then s[op.key := op.val] else s - {op.key}
  }

  function AppliedAll(s: Store, ops: seq<Op>): Store {
    if ops == [] then s else Applied(AppliedAll(s, ops[..|ops| - 1]), ops[|ops| - 1])
  }

  lemma AppliedSnoc(s: Store, ops: seq<Op>, op: Op)
    ensures AppliedAll(s, ops + [op]) == Applied(AppliedAll(s, ops), op)
  {
    assert (ops + [op])[..|ops|] == ops;
  }

  /** The last value written per key: nil for a deletion. */
  function Final(final: map<Key, Option<Val>>, op: Op): map<Key, Option<Val>> {
    final[op.key := if op.Put? && !op.val.Nothing? then Some(op.val) else None]
  }

  /** The final values say what applying the batch does to any store. */
  ghost predicate Summarises(final: map<Key, Option<Val>>, ops: seq<Op>) {
    forall s: Store, k :: Get(AppliedAll(s, ops), k) == if k in final then final[k] else Get(s, k)
  }

  lemma SummaryNext(final: map<Key, Option<Val>>, ops: seq<Op>, op: Op)
    requires Summarises(final, ops)
    ensures Summarises(Final(final, op), ops + [op])
  {
    var final' := Final(final, op);
    forall s: Store, k ensures Get(AppliedAll(s, ops + [op]), k) == if k in final' then final'[k] else Get(s, k) {
      AppliedSnoc(s, ops, op);
      assert Get(AppliedAll(s, ops), k) == if k in final then final[k] else Get(s, k);
    }
  }

  ghost predicate Coherent(cache: Store, store: Store) {
    forall k :: k in cache ==> Get(store, k) == Some(cache[k])
  }

  class CachedStorage {
    var store: Store
    var cache: Store

    ghost predicate Valid()
      reads this
    {
      Coherent(cache, store)
    }

    constructor ()
      ensures Valid() && store == map[] && cache == map[]
    {
      store, cache := map[], map[];
    }

    /** Read through the cache, filling it. */
    method Read(key: Key) returns (v: Option<Val>)
      requires Valid()
      modifies this`cache
      ensures Valid() && v == Get(store, key)
      ensures cache == if v.Some? then old(cache)[key := v.value] else old(cache)
    {
      if key in cache {
        return Some(cache[key]);
      }
      v := Get(store, key);
      if v.Some? {
        cache := cache[key := v.value];
      }
    }

    /** The cache forgets some entries. */
    method Evict(keys: set<Key>)
      requires Valid()
      modifies this`cache
      ensures Valid() && cache == old(cache) - keys
    {
      cache := cache - keys;
    }
  }

  /** A batch that also remembers, per key, the value it leaves. */
  class BatchWrapper {
    const storage: CachedStorage
    var ops: seq<Op>
    var finalState: map<Key, Option<Val>>

    ghost predicate Valid()
      reads this
    {
      Summarises(finalState, ops)
    }

    constructor (storage: CachedStorage)
      ensures Valid() && ops == [] && this.storage == storage
    {
      this.storage := storage;
      ops, finalState := [], map[];
    }

    method Write(op: Op)
      requires Valid()
      modifies this
      ensures Valid() && ops == old(ops) + [op]
    {
      hide Summarises;
      SummaryNext(finalState, ops, op);
      finalState := Final(finalState, op);
      ops := ops + [op];
    }

    /** Apply the batch to the store and bring the cache in line, keys in any order. */
    method Commit()
      requires Valid() && storage.Valid()
      modifies storage
      ensures storage.Valid() && storage.store == AppliedAll(old(storage.store), ops)
    {
      ghost var before, cached := storage.store, storage.cache;
      storage.store := AppliedAll(storage.store, ops);
      var cache := storage.cache;
      var todo := finalState.Keys;
      while todo != {}
        invariant todo <= finalState.Keys
        invariant forall k :: Get(cache, k) == if k in finalState && k !in todo then finalState[k] else Get(cached, k)
        decreases |todo|
      {
        var k :| k in todo;
        if finalState[k].None? {
          cache := cache - {k};
        } else {
          cache := cache[k := finalState[k].value];
        }
        todo := todo - {k};
      }
      CommitIsCoherent(before, cached, cache, finalState, ops);
      storage.cache := cache;
    }

    method Reset()
      modifies this
      ensures Valid() && ops == []
    {
      ops, finalState := [], map[];
    }
  }

  lemma CommitIsCoherent(store: Store, cached: Store, cache: Store, final: map<Key, Option<Val>>, ops: seq<Op>)
    requires Coherent(cached, store) && Summarises(final, ops)
    requires forall k :: Get(cache, k) == if k in final then final[k] else Get(cached, k)
    ensures Coherent(cache, AppliedAll(store, ops))
  {
    forall k | k in cache ensures Get(AppliedAll(store, ops), k) == Some(cache[k]) {
      assert Get(cache, k) == Some(cache[k]);
      assert Get(AppliedAll(store, ops), k) == if k in final then final[k] else Get(store, k);
    }
  }
}
