/** The pool's store together with its batch builder and its price scheduler. */
module PoolBatches {
  import opened Types
  import opened TxStores
  import NonceQueues
  import opened PriorityQueues
  import opened SchedulerRuns
  import opened BatchByTime

  /** Every entry of the time index is a stored transaction. */
  ghost predicate Indexed(lists: Lists, order: seq<Ptr>) {
    forall i :: 0 <= i < |order| ==> Item(lists, order[i].0, order[i].1).Some?
  }

  function At(lists: Lists, p: Ptr): Option<PoolTx> {
    Item(lists, p.0, p.1)
  }

  /** Fill a batch in time order from the store and mark its transactions as batched. They are stored
      ones, none was batched before and none is in the batch twice. Each account's batched nonces stay
      a run from its commit nonce. */
  method FillBatch(store: TransactionStore, order: seq<Ptr>, validate: PoolTx -> bool, commit: Address -> nat,
                   batchSize: nat)
    returns (batch: seq<PoolTx>, invalid: map<Address, nat>)
    requires store.Valid() && Index(order) && Indexed(store.allTxs, order)
    requires Runs(commit, store.batchedTxs) && EndsApart(order, commit)
    modifies store`batchedTxs
    ensures store.Valid() && Runs(commit, store.batchedTxs) && (batchSize > 0 ==> |batch| <= batchSize)
    ensures forall i :: 0 <= i < |batch| ==>
              var t := batch[i];
              && Item(store.allTxs, t.account, t.nonce) == Some(t) && validate(t)
              && (t.account, t.nonce) in store.batchedTxs && (t.account, t.nonce) !in old(store.batchedTxs)
    ensures forall i, j :: 0 <= i < j < |batch| ==> batch[i] != batch[j]
    ensures forall p :: p in store.batchedTxs ==>
            p in old(store.batchedTxs)
            || exists t :: t in batch && (t.account, t.nonce) == p
    ensures forall a :: a in invalid ==>
              (a, invalid[a]) in order && !validate(Item(store.allTxs, a, invalid[a]).value)
    ensures batchSize == 0 || |batch| < batchSize ==>
              forall p :: p in order && p.0 !in invalid ==>
                p in store.batchedTxs || !Ready(commit, store.batchedTxs, p)
  {
    hide Runs, EndsApart, Grew, Ready, Taken, Agree, ListsOk;
    var lists := store.allTxs;
    var valid := (p: Ptr) => At(lists, p).Some? && validate(At(lists, p).value);
    var places, batched;
    places, batched, invalid := PopExecutableTxsByTime(order, valid, commit, store.batchedTxs, batchSize);
    GrewMeans(commit, store.batchedTxs, places, batched);
    AgreeLists(store.txHashMap, lists);
    forall i | 0 <= i < |places| ensures places[i] in batched && valid(places[i]) {
      assert places[i] in Elements(places);
    }
    batch := Fetch(lists, places);
    forall a | a in invalid ensures !validate(Item(lists, a, invalid[a]).value) {
      var p: Ptr := (a, invalid[a]);
      IndexedAt(lists, order, p);
      assert !valid(p) && At(lists, p) == Item(lists, a, invalid[a]);
    }
    store.batchedTxs := batched;
    forall p | p in batched && p !in old(store.batchedTxs) ensures exists t :: t in batch && (t.account, t.nonce) == p {
      var i :| 0 <= i < |places| && places[i] == p;
      assert batch[i] in batch;
    }
  }

  /** The transactions at the given places. */
  method Fetch(lists: Lists, places: seq<Ptr>) returns (txs: seq<PoolTx>)
    requires ListsOk(lists) && forall i :: 0 <= i < |places| ==> At(lists, places[i]).Some?
    ensures |txs| == |places|
    ensures forall i :: 0 <= i < |places| ==>
              At(lists, places[i]) == Some(txs[i]) && (txs[i].account, txs[i].nonce) == places[i]
  {
    hide ListsOk;
    txs := [];
    for k := 0 to |places|
      invariant |txs| == k
      invariant forall i :: 0 <= i < k ==>
                  At(lists, places[i]) == Some(txs[i]) && (txs[i].account, txs[i].nonce) == places[i]
    {
      AtItsPlace(lists, places[k]);
      txs := txs + [At(lists, places[k]).value];
    }
  }

  lemma IndexedAt(lists: Lists, order: seq<Ptr>, p: Ptr)
    requires Indexed(lists, order) && p in order
    ensures Item(lists, p.0, p.1).Some?
  {
  }

  lemma AtItsPlace(lists: Lists, p: Ptr)
    requires ListsOk(lists) && At(lists, p).Some?
    ensures var t := At(lists, p).value; (t.account, t.nonce) == p
  {
  }

  /** The predecessor of a nonce, in unsigned 64-bit arithmetic. */
  function Before(nonce: nat): nat {
    (nonce - 1) % (MAX_UINT64 + 1)
  }

  lemma BeforeMeans(nonce: nat)
    requires nonce <= MAX_UINT64
    ensures Before(nonce) == if nonce == 0 then MAX_UINT64 else nonce - 1
  {
  }

  /** Drop everything an account committed, from the store and from the scheduler. The scheduler keeps
      exactly the nonces from the commit nonce on, as the store does, if and only if the commit nonce is
      not zero or nothing below the largest nonce is queued: at zero the predecessor wraps. */
  method CleanBeforeCommitNonce(store: TransactionStore, p: PriorityQueue, account: Address, commitNonce: nat, now: int)
    requires store.Valid() && p.Valid() && account !in p.suspended && commitNonce <= MAX_UINT64
    modifies store, p`model, p`nonBatchSize, p.txsByPrice, p.Footprint(account)
    ensures store.Valid() && p.Valid()
    ensures forall a, n: nat :: Item(store.allTxs, a, n) ==
              if a == account && n < commitNonce then None else Item(old(store.allTxs), a, n)
    ensures forall a :: a != account ==> ItemsOf(p.model, a) == ItemsOf(old(p.model), a)
    ensures forall n :: n in ItemsOf(p.model, account) <==>
              n in ItemsOf(old(p.model), account) && (if commitNonce == 0 then n == MAX_UINT64 else commitNonce <= n)
    ensures (forall n :: n in ItemsOf(old(p.model), account) && n >= commitNonce ==> n in ItemsOf(p.model, account))
            <==> commitNonce > 0 || forall n :: n in ItemsOf(old(p.model), account) ==> n == MAX_UINT64
  {
    hide Inv, Agree, NonceQueues.Took, NonceQueues.Rising, PriorityQueue.Linked;
    QueuedFit(p.model, p.txsByPrice.dirtyAccounts, p.suspended, p.nonBatchSize);
    var removed := p.RemoveTxBeforeNonce(account, Before(commitNonce));
    store.CleanTxsBeforeCommitNonce(account, commitNonce, now);
  }

  /** The failing case: cleaning at commit nonce zero empties the account's queue. */
  method CommitZeroEmptiesQueue(getNonceFn: Address -> nat, tx: NonceQueues.Tx) returns (p: PriorityQueue)
    requires tx.nonce < MAX_UINT64
    ensures tx.nonce !in ItemsOf(p.model, tx.account)
  {
    hide PriorityQueue.Valid;
    p := NewWith(getNonceFn, tx);
    var store := new TransactionStore();
    CleanBeforeCommitNonce(store, p, tx.account, 0, 0);
  }
}
