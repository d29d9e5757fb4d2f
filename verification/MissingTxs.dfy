/** How a replica gets the transactions of a batch it lacks from the primary. */
module MissingTxs {
  import opened Types
  import opened TxStores

  datatype Batch = Batch(txList: seq<PoolTx>, txHashList: seq<Hash>)

  datatype Lookup = Found(txs: seq<PoolTx>) | Missing(missing: map<nat, Hash>) | Duplicate

  datatype Answer = Txs(txs: map<nat, PoolTx>) | UnknownTx | UnknownBatch | InvalidTx

  /** NilTx is the nil dereference on an index the answer lacks. */
  datatype Receipt = Applied | HashMismatch | NilTx

  function PlaceOf(tx: PoolTx): Ptr {
    (tx.account, tx.nonce)
  }

  /** The indices of the hashes the pool lacks. */
  ghost function LackedBy(hashes: Hashes, hashList: seq<Hash>): map<nat, Hash> {
    map i: nat | i < |hashList| && hashList[i] !in hashes :: hashList[i]
  }

  /** Some transaction of the list is batched already and not excused. */
  ghost predicate HasDuplicate(hashes: Hashes, batched: set<Ptr>, hashList: seq<Hash>, deDuplicate: set<Hash>) {
    exists i :: 0 <= i < |hashList| && IsDuplicate(hashes, batched, hashList[i], deDuplicate)
  }

  predicate IsDuplicate(hashes: Hashes, batched: set<Ptr>, h: Hash, deDuplicate: set<Hash>) {
    h in hashes && h !in deDuplicate && hashes[h] in batched
  }

  /** The transactions are the pool's, under the given hashes. */
  ghost predicate InPool(hashes: Hashes, lists: Lists, hashList: seq<Hash>, txs: seq<PoolTx>) {
    |txs| == |hashList| && forall i :: 0 <= i < |hashList| ==>
      hashList[i] in hashes && Item(lists, hashes[hashList[i]].0, hashes[hashList[i]].1) == Some(txs[i])
  }

  lemma AgreeAtPlace(hashes: Hashes, lists: Lists, p: Ptr, h: Hash)
    requires Agree(hashes, lists) && Holds(lists, p, h)
    ensures Get(hashes, h) == Some(p)
  {
  }

  lemma AgreeAt(hashes: Hashes, lists: Lists, h: Hash)
    requires Agree(hashes, lists) && h in hashes
    ensures Holds(lists, hashes[h], h)
  {
  }

  /** Look every hash up: the transactions in list order, or exactly the indices that are missing. */
  method LookUp(hashes: Hashes, lists: Lists, batched: set<Ptr>, hashList: seq<Hash>, deDuplicate: set<Hash>)
    returns (r: Lookup)
    requires Agree(hashes, lists)
    ensures r.Duplicate? <==> HasDuplicate(hashes, batched, hashList, deDuplicate)
    ensures r.Missing? ==> r.missing == LackedBy(hashes, hashList) && r.missing != map[]
    ensures r.Found? ==> |r.txs| == |hashList| && LackedBy(hashes, hashList) == map[]
    ensures r.Found? ==> InPool(hashes, lists, hashList, r.txs)
  {
    hide Agree;
    var txs: seq<PoolTx>, missing: map<nat, Hash> := [], map[];
    for i := 0 to |hashList|
      invariant forall j: nat :: j in missing <==> j < i && hashList[j] !in hashes
      invariant forall j :: j in missing ==> missing[j] == hashList[j]
      invariant forall j :: 0 <= j < i ==> !IsDuplicate(hashes, batched, hashList[j], deDuplicate)
      invariant missing == map[] ==> |txs| == i
      invariant missing == map[] ==> forall j :: 0 <= j < i ==>
                  hashList[j] in hashes && Item(lists, hashes[hashList[j]].0, hashes[hashList[j]].1) == Some(txs[j])
    {
      var h := hashList[i];
      if h !in hashes {
        missing := missing[i := h];
        assert i in missing;
        continue;
      }
      if h !in deDuplicate && hashes[h] in batched {
        assert IsDuplicate(hashes, batched, hashList[i], deDuplicate);
        return Duplicate;
      }
      AgreeAt(hashes, lists, h);
      if missing == map[] {
        txs := txs + [Item(lists, hashes[h].0, hashes[h].1).value];
      }
    }
    if missing != map[] {
      assert missing == LackedBy(hashes, hashList);
      return Missing(missing);
    }
    assert LackedBy(hashes, hashList) == map[];
    return Found(txs);
  }

  /** Where the pool keeps the listed transactions. */
  ghost function PlacesIn(hashes: Hashes, hashList: seq<Hash>): set<Ptr> {
    set h | h in hashList && h in hashes :: hashes[h]
  }

  method MarkBatched(hashes: Hashes, batched: set<Ptr>, hashList: seq<Hash>) returns (batched': set<Ptr>)
    requires forall i :: 0 <= i < |hashList| ==> hashList[i] in hashes
    ensures batched' == batched + PlacesIn(hashes, hashList)
  {
    batched' := batched;
    assert PlacesIn(hashes, hashList[..0]) == {};
    for i := 0 to |hashList|
      invariant batched' == batched + PlacesIn(hashes, hashList[..i])
    {
      assert PlacesIn(hashes, hashList[..i + 1]) == PlacesIn(hashes, hashList[..i]) + {hashes[hashList[i]]} by {
        assert hashList[..i + 1] == hashList[..i] + [hashList[i]];
      }
      batched' := batched' + {hashes[hashList[i]]};
    }
    assert hashList[..|hashList|] == hashList;
  }

  /** Check an answer against the indices asked for, in any order. */
  method ValidateReceived(target: map<nat, Hash>, txs: map<nat, PoolTx>) returns (r: Receipt)
    ensures r.Applied? <==> forall i :: i in target ==> i in txs && txs[i].hash == target[i]
  {
    var todo := target.Keys;
    while todo != {}
      invariant todo <= target.Keys && forall i :: i in target && i !in todo ==> i in txs && txs[i].hash == target[i]
      decreases |todo|
    {
      var i :| i in todo;
      if i !in txs {
        return NilTx;
      }
      if txs[i].hash != target[i] {
        return HashMismatch;
      }
      todo := todo - {i};
    }
    return Applied;
  }

  /** The primary's answer: the batch's transactions at the indices asked for. */
  method SendMissing(hashes: Hashes, batches: map<Hash, Batch>, batchHash: Hash, missing: map<nat, Hash>)
    returns (r: Answer)
    requires forall b :: b in batches ==> |batches[b].txList| <= |batches[b].txHashList|
    ensures r.Txs? <==> && (forall i :: i in missing ==> missing[i] in hashes) && batchHash in batches
                        && forall i :: i in missing ==>
                            i < |batches[batchHash].txList|
                            && batches[batchHash].txHashList[i] == missing[i]
    ensures r.Txs? ==> r.txs == map i | i in missing :: batches[batchHash].txList[i]
  {
    var todo := missing.Keys;
    while todo != {}
      invariant todo <= missing.Keys && forall i :: i in missing && i !in todo ==> missing[i] in hashes
      decreases |todo|
    {
      var i :| i in todo;
      if missing[i] !in hashes {
        return UnknownTx;
      }
      todo := todo - {i};
    }
    if batchHash !in batches {
      return UnknownBatch;
    }
    var batch := batches[batchHash];
    var txs: map<nat, PoolTx> := map[];
    todo := missing.Keys;
    while todo != {}
      invariant todo <= missing.Keys && txs.Keys == missing.Keys - todo
      invariant forall i :: i in missing && i !in todo ==>
          i < |batch.txList| && batch.txHashList[i] == missing[i] && txs[i] == batch.txList[i]
      decreases |todo|
    {
      var i :| i in todo;
      if i >= |batch.txList| || batch.txHashList[i] != missing[i] {
        return InvalidTx;
      }
      txs := txs[i := batch.txList[i]];
      todo := todo - {i};
    }
    return Txs(txs);
  }

  /** The transactions at the given indices have different places. */
  ghost predicate Apart(txs: map<nat, PoolTx>) {
    forall i, j :: i in txs && j in txs && i != j ==> PlaceOf(txs[i]) != PlaceOf(txs[j])
  }

  /** A hash the pool knows is at the transaction's own place. */
  ghost predicate Placed(hashes: Hashes, txs: map<nat, PoolTx>) {
    forall i :: i in txs && txs[i].hash in hashes ==> hashes[txs[i].hash] == PlaceOf(txs[i])
  }

  ghost predicate HashIdentifies(txs: map<nat, PoolTx>) {
    forall i, j :: i in txs && j in txs && txs[i].hash == txs[j].hash ==> txs[i] == txs[j]
  }

  /** The part of an answer that was asked for. */
  function Wanted(target: map<nat, Hash>, txs: map<nat, PoolTx>): (used: map<nat, PoolTx>)
    ensures forall i :: Get(used, i) == if i in target then Get(txs, i) else None
  {
    map i | i in target && i in txs :: txs[i]
  }

  /** Nothing changed but at the places of the given transactions. */
  ghost predicate SameElsewhere(lists: Lists, lists': Lists, txs: map<nat, PoolTx>) {
    forall a, n: nat :: (forall i :: i in txs ==> PlaceOf(txs[i]) != (a, n)) ==> Item(lists', a, n) == Item(lists, a, n)
  }

  /** Transactions put in place so far are still there after one more. */
  lemma StaysPut(lists: Lists, lists': Lists, txs: map<nat, PoolTx>, todo: set<nat>, k: nat)
    requires Apart(txs) && k in txs && SameBut(lists, lists', PlaceOf(txs[k]))
    requires Item(lists', txs[k].account, txs[k].nonce) == Some(txs[k])
    requires forall i :: i in txs && i !in todo ==> Item(lists, txs[i].account, txs[i].nonce) == Some(txs[i])
    ensures forall i :: i in txs && i !in todo - {k} ==> Item(lists', txs[i].account, txs[i].nonce) == Some(txs[i])
  {
    forall i | i in txs && i !in todo - {k} ensures Item(lists', txs[i].account, txs[i].nonce) == Some(txs[i]) {
      if i != k {
        assert (txs[i].account, txs[i].nonce) != PlaceOf(txs[k]);
      }
    }
  }

  lemma StillPlaced(hashes: Hashes, lists: Lists, hashes': Hashes, lists': Lists, txs: map<nat, PoolTx>, k: nat)
    requires Agree(hashes, lists) && Agree(hashes', lists') && Placed(hashes, txs) && k in txs
    requires SameBut(lists, lists', PlaceOf(txs[k])) && Item(lists', txs[k].account, txs[k].nonce) == Some(txs[k])
    requires HashIdentifies(txs)
    ensures Placed(hashes', txs)
  {
    hide Agree;
    forall i | i in txs && txs[i].hash in hashes' ensures hashes'[txs[i].hash] == PlaceOf(txs[i]) {
      var q := hashes'[txs[i].hash];
      AgreeAt(hashes', lists', txs[i].hash);
      assert q == (q.0, q.1);
      if q != PlaceOf(txs[k]) {
        AgreeAtPlace(hashes, lists, q, txs[i].hash);
      }
    }
  }

  class Pool {
    const store: TransactionStore
    var batchesCache: map<Hash, Batch>
    var missingBatch: map<Hash, map<nat, Hash>>

    ghost predicate Valid()
      reads this, store
    {
      store.Valid() && forall b :: b in batchesCache ==> |batchesCache[b].txList| <= |batchesCache[b].txHashList|
    }

    constructor ()
      ensures Valid() && fresh(store) && batchesCache == map[] && missingBatch == map[]
    {
      store := new TransactionStore();
      batchesCache, missingBatch := map[], map[];
    }

    method HandleGetRequestsByHashList(batchHash: Hash, hashList: seq<Hash>, deDuplicate: set<Hash>) returns (r: Lookup)
      requires Valid()
      modifies this, store`batchedTxs
      ensures Valid()
      ensures batchHash in old(batchesCache) ==>
              r == Found(old(batchesCache)[batchHash].txList) && unchanged(this, store)
      ensures batchHash !in old(batchesCache) && batchHash in old(missingBatch) ==>
                r == Missing(old(missingBatch)[batchHash]) && unchanged(this, store)
      ensures batchHash !in old(batchesCache) && batchHash !in old(missingBatch) ==>
                && (r.Duplicate? <==> HasDuplicate(store.txHashMap, old(store.batchedTxs), hashList, deDuplicate))
                && (r.Missing? ==>
                    r.missing == LackedBy(store.txHashMap, hashList) && r.missing != map[]
                    && missingBatch == old(missingBatch)[batchHash := r.missing])
                && (r.Missing? ==> batchesCache == old(batchesCache) && store.batchedTxs == old(store.batchedTxs))
                && (r.Found? ==>
                    batchesCache == old(batchesCache)[batchHash := Batch(r.txs, hashList)]
                    && |r.txs| == |hashList|)
                && (r.Found? ==> LackedBy(store.txHashMap, hashList) == map[])
                && (r.Found? ==> InPool(store.txHashMap, store.allTxs, hashList, r.txs))
                && (r.Duplicate? ==> unchanged(this, store))
                && (r.Found? ==> missingBatch == old(missingBatch))
                && (r.Found? ==> store.batchedTxs == old(store.batchedTxs) + PlacesIn(store.txHashMap, hashList))
    {
      hide Agree, HasDuplicate, LackedBy;
      if batchHash in batchesCache {
        return Found(batchesCache[batchHash].txList);
      }
      if batchHash in missingBatch {
        return Missing(missingBatch[batchHash]);
      }
      r := LookUp(store.txHashMap, store.allTxs, store.batchedTxs, hashList, deDuplicate);
      match r
      case Duplicate =>
      case Missing(missing) => missingBatch := missingBatch[batchHash := missing];
      case Found(txs) =>
        var batched := MarkBatched(store.txHashMap, store.batchedTxs, hashList);
        store.batchedTxs := batched;
        batchesCache := batchesCache[batchHash := Batch(txs, hashList)];
    }

    /** Put the transactions of an answer in the pool, unless it does not fit what was asked. The
        asked-for transactions with different places are then all there. */
    method HandleMissingTxs(batchHash: Hash, txs: map<nat, PoolTx>) returns (r: Receipt)
      requires Valid()
      requires batchHash in missingBatch ==>
                 var used := Wanted(missingBatch[batchHash], txs); HashIdentifies(used) && Placed(store.txHashMap, used)
      modifies this`missingBatch, store`txHashMap, store`allTxs
      ensures Valid()
      ensures batchHash !in old(missingBatch) ==> r.Applied? && unchanged(store)
      ensures batchHash in old(missingBatch) ==>
                var target := old(missingBatch)[batchHash];
                var used := Wanted(target, txs);
                && (r.Applied? <==> forall i :: i in target ==> i in txs && txs[i].hash == target[i])
                && (!r.Applied? ==> unchanged(store) && missingBatch == old(missingBatch))
                && (r.Applied? ==>
                    missingBatch == old(missingBatch) - {batchHash}
                    && SameElsewhere(old(store.allTxs), store.allTxs, used))
                && (r.Applied? && Apart(used) ==> forall i :: i in used ==>
                    Item(store.allTxs, used[i].account, used[i].nonce) == Some(used[i]))
    {
      hide Agree, SameBut, Placed, Apart, HashIdentifies;
      if batchHash !in missingBatch {
        return Applied;
      }
      r := ValidateReceived(missingBatch[batchHash], txs);
      if !r.Applied? {
        return;
      }
      var used := Wanted(missingBatch[batchHash], txs);
      var todo := used.Keys;
      while todo != {}
        invariant todo <= used.Keys && Valid() && Placed(store.txHashMap, used) && missingBatch == old(missingBatch)
        invariant Apart(used) ==> forall i :: i in used && i !in todo ==>
            Item(store.allTxs, used[i].account, used[i].nonce) == Some(used[i])
        invariant SameElsewhere(old(store.allTxs), store.allTxs, used)
        decreases |todo|
      {
        var k :| k in todo;
        ghost var hashes, lists := store.txHashMap, store.allTxs;
        if used[k].hash in hashes {
          PlacedAt(hashes, used, k);
        }
        var replaced := store.ReplaceTx(used[k]);
        if Apart(used) {
          StaysPut(lists, store.allTxs, used, todo, k);
        }
        StillPlaced(hashes, lists, store.txHashMap, store.allTxs, used, k);
        SameElsewhereStep(old(store.allTxs), lists, store.allTxs, used, k);
        todo := todo - {k};
      }
      missingBatch := missingBatch - {batchHash};
    }
  }

  lemma PlacedAt(hashes: Hashes, txs: map<nat, PoolTx>, k: nat)
    requires Placed(hashes, txs) && k in txs && txs[k].hash in hashes
    ensures hashes[txs[k].hash] == PlaceOf(txs[k])
  {
  }

  lemma SameElsewhereStep(x: Lists, y: Lists, z: Lists, txs: map<nat, PoolTx>, k: nat)
    requires SameElsewhere(x, y, txs) && k in txs && SameBut(y, z, PlaceOf(txs[k]))
    ensures SameElsewhere(x, z, txs)
  {
  }

  /** A batch of the primary: one transaction per hash, at different places. */
  ghost predicate BatchOk(b: Batch) {
    && |b.txList| == |b.txHashList|
    && (forall i :: 0 <= i < |b.txList| ==> b.txList[i].hash == b.txHashList[i])
    && (forall i, j :: 0 <= i < j < |b.txList| ==>
        PlaceOf(b.txList[i]) != PlaceOf(b.txList[j]) && b.txHashList[i] != b.txHashList[j])
  }

  /** Whatever the pool has under one of the batch's hashes is the batch's transaction. */
  ghost predicate Consistent(hashes: Hashes, lists: Lists, b: Batch)
    requires BatchOk(b)
  {
    forall i :: 0 <= i < |b.txList| && b.txHashList[i] in hashes ==>
      hashes[b.txHashList[i]] == PlaceOf(b.txList[i])
          && Item(lists, b.txList[i].account, b.txList[i].nonce) == Some(b.txList[i])
  }

  ghost predicate NoneBatched(batched: set<Ptr>, b: Batch) {
    forall i :: 0 <= i < |b.txList| ==> PlaceOf(b.txList[i]) !in batched
  }

  /** The primary's answer to what the replica lacks. */
  ghost predicate Answers(txs: map<nat, PoolTx>, missing: map<nat, Hash>, b: Batch) {
    txs.Keys == missing.Keys && forall i :: i in txs ==> i < |b.txList| && txs[i] == b.txList[i]
  }

  lemma AnswerFits(hashes: Hashes, b: Batch, missing: map<nat, Hash>, txs: map<nat, PoolTx>)
    requires BatchOk(b) && missing == LackedBy(hashes, b.txHashList) && Answers(txs, missing, b)
    ensures Wanted(missing, txs) == txs && Apart(txs) && HashIdentifies(txs) && Placed(hashes, txs)
    ensures forall i :: i in missing ==> txs[i].hash == missing[i]
  {
    forall i, j | i in txs && j in txs && i != j
      ensures PlaceOf(txs[i]) != PlaceOf(txs[j]) && txs[i].hash != txs[j].hash
    {
      var x, y := if i < j then i else j, if i < j then j else i;
      assert PlaceOf(b.txList[x]) != PlaceOf(b.txList[y]) && b.txHashList[x] != b.txHashList[y];
    }
  }

  /** After the answer is applied, every transaction of the batch is at its place. */
  lemma AllInPlace(hashes: Hashes, lists: Lists, hashes': Hashes, lists': Lists, b: Batch, missing: map<nat, Hash>,
                   txs: map<nat, PoolTx>, k: nat)
    requires BatchOk(b) && Agree(hashes, lists) && Agree(hashes', lists') && Consistent(hashes, lists, b)
    requires missing == LackedBy(hashes, b.txHashList) && Answers(txs, missing, b)
    requires SameElsewhere(lists, lists', txs)
             && forall i :: i in txs ==> Item(lists', txs[i].account, txs[i].nonce) == Some(txs[i])
    requires k < |b.txList|
    ensures Item(lists', b.txList[k].account, b.txList[k].nonce) == Some(b.txList[k])
    ensures Get(hashes', b.txHashList[k]) == Some(PlaceOf(b.txList[k]))
  {
    hide Agree;
    var t := b.txList[k];
    if k !in txs {
      assert b.txHashList[k] in hashes;
      assert Item(lists, t.account, t.nonce) == Some(t);
      forall i | i in txs ensures PlaceOf(txs[i]) != (t.account, t.nonce) {
        var x, y := if i < k then i else k, if i < k then k else i;
        assert PlaceOf(b.txList[x]) != PlaceOf(b.txList[y]);
      }
    }
    assert Item(lists', t.account, t.nonce) == Some(t);
    AgreeAtPlace(hashes', lists', PlaceOf(t), t.hash);
  }

  /** When the whole batch is in place, looking it up finds it in order. */
  lemma FoundIsBatch(hashes: Hashes, lists: Lists, batched: set<Ptr>, deDuplicate: set<Hash>, b: Batch, r: Lookup)
    requires BatchOk(b) && NoneBatched(batched, b)
    requires forall k :: 0 <= k < |b.txList| ==> Get(hashes, b.txHashList[k]) == Some(PlaceOf(b.txList[k]))
    requires forall k :: 0 <= k < |b.txList| ==>
             Item(lists, b.txList[k].account, b.txList[k].nonce) == Some(b.txList[k])
    requires r.Duplicate? ==> HasDuplicate(hashes, batched, b.txHashList, deDuplicate)
    requires r.Missing? ==> r.missing == LackedBy(hashes, b.txHashList) && r.missing != map[]
    requires r.Found? ==> InPool(hashes, lists, b.txHashList, r.txs)
    ensures r == Found(b.txList)
  {
    forall i | 0 <= i < |b.txHashList|
      ensures !IsDuplicate(hashes, batched, b.txHashList[i], deDuplicate)
              && b.txHashList[i] in hashes
    {
      assert Get(hashes, b.txHashList[i]) == Some(PlaceOf(b.txList[i]));
    }
    assert LackedBy(hashes, b.txHashList) == map[];
    forall i | 0 <= i < |b.txHashList| && r.Found? ensures r.txs[i] == b.txList[i] {
      assert Get(hashes, b.txHashList[i]) == Some(PlaceOf(b.txList[i]));
    }
  }

  /** A consistent pool does not take the batch for a duplicate, and what it finds is the batch. */
  lemma FirstLookup(hashes: Hashes, lists: Lists, batched: set<Ptr>, deDuplicate: set<Hash>, b: Batch, r: Lookup)
    requires BatchOk(b) && NoneBatched(batched, b) && Consistent(hashes, lists, b)
    requires r.Duplicate? ==> HasDuplicate(hashes, batched, b.txHashList, deDuplicate)
    requires r.Found? ==> InPool(hashes, lists, b.txHashList, r.txs)
    ensures !r.Duplicate? && (r.Found? ==> r.txs == b.txList)
  {
    assert forall i :: 0 <= i < |b.txHashList| ==> !IsDuplicate(hashes, batched, b.txHashList[i], deDuplicate);
  }

  lemma Lacked(hashes: Hashes, b: Batch)
    requires BatchOk(b)
    ensures forall i :: i in LackedBy(hashes, b.txHashList) ==>
            i < |b.txList| == |b.txHashList| && LackedBy(hashes, b.txHashList)[i] == b.txHashList[i]
  {
  }

  /** A replica that lacks part of a batch asks the primary, applies the answer and looks again: it
      then has the primary's transactions in the primary's order. */
  method Exchange(primary: Pool, replica: Pool, batchHash: Hash, ghost b: Batch, hashList: seq<Hash>,
                  deDuplicate: set<Hash>)
    returns (first: Lookup, second: Lookup)
    requires primary.Valid() && replica.Valid() && primary != replica && primary.store != replica.store
    requires Get(primary.batchesCache, batchHash) == Some(b) && BatchOk(b) && hashList == b.txHashList
    requires forall i :: 0 <= i < |hashList| ==> hashList[i] in primary.store.txHashMap
    requires batchHash !in replica.batchesCache && batchHash !in replica.missingBatch
    requires Consistent(replica.store.txHashMap, replica.store.allTxs, b) && NoneBatched(replica.store.batchedTxs, b)
    modifies replica, replica.store
    ensures second == Found(b.txList) && replica.Valid()
    ensures first.Found? || first == Missing(LackedBy(old(replica.store.txHashMap), hashList))
  {
    hide Agree, HasDuplicate, LackedBy, InPool, BatchOk, Consistent, NoneBatched, SameElsewhere, Apart, HashIdentifies,
        Placed, Wanted;
    ghost var hashes, lists, batched := replica.store.txHashMap, replica.store.allTxs, replica.store.batchedTxs;
    first := replica.HandleGetRequestsByHashList(batchHash, hashList, deDuplicate);
    FirstLookup(hashes, lists, batched, deDuplicate, b, first);
    if first.Found? {
      second := replica.HandleGetRequestsByHashList(batchHash, hashList, deDuplicate);
      return;
    }
    Lacked(hashes, b);
    var answer := SendMissing(primary.store.txHashMap, primary.batchesCache, batchHash, first.missing);
    AnswerFits(hashes, b, first.missing, answer.txs);
    var receipt := replica.HandleMissingTxs(batchHash, answer.txs);
    forall k: nat | k < |b.txList|
      ensures Get(replica.store.txHashMap, b.txHashList[k]) == Some(PlaceOf(b.txList[k]))
      ensures Item(replica.store.allTxs, b.txList[k].account, b.txList[k].nonce) == Some(b.txList[k])
    {
      AllInPlace(hashes, lists, replica.store.txHashMap, replica.store.allTxs, b, first.missing, answer.txs, k);
    }
    second := replica.HandleGetRequestsByHashList(batchHash, hashList, deDuplicate);
    FoundIsBatch(replica.store.txHashMap, replica.store.allTxs, batched, deDuplicate, b, second);
  }
}
