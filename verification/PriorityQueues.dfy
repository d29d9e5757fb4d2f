/** The price-priority scheduler: one nonce queue per account and a price heap over their heads. */
module PriorityQueues {
  import opened Types
  import opened Heaps
  import opened NonceQueues
  import opened PriceQueues

  type Queues = map<Address, Queue>

  ghost function Queued(q: Queues): set<(Address, nat)> {
    set a, n | a in q && n in q[a].items :: (a, n)
  }

  function ItemsOf(q: Queues, a: Address): map<nat, Tx> {
    if a in q then q[a].items else map[]
  }

  ghost predicate QueuesOk(q: Queues) {
    forall a :: a in q ==> q[a].Ok(a)
  }

  /** The price heap holds the head of every account with transactions, except the suspended ones. */
  ghost predicate HeadAt(q: Queues, dirty: map<Address, Tx>, suspended: set<Address>, a: Address) {
    if ItemsOf(q, a) != map[] && a !in suspended then a in dirty && IsHead(ItemsOf(q, a), dirty[a]) else a !in dirty
  }

  ghost predicate Heads(q: Queues, dirty: map<Address, Tx>, suspended: set<Address>) {
    forall a :: HeadAt(q, dirty, suspended, a)
  }

  ghost predicate Inv(q: Queues, dirty: map<Address, Tx>, suspended: set<Address>, size: nat) {
    QueuesOk(q) && Heads(q, dirty, suspended) && size == |Queued(q)|
  }

  ghost predicate AllGapless(q: Queues) {
    forall a :: Gapless(ItemsOf(q, a))
  }

  // ---------------------------------------------------------------- counting

  lemma QueuedItems(q: Queues, p: (Address, nat))
    ensures p in Queued(q) <==> p.1 in ItemsOf(q, p.0)
  {
    if p.0 in q && p.1 in q[p.0].items {
      assert (p.0, p.1) in Queued(q);
    }
  }

  lemma CountPut(q: Queues, a: Address, next: Queue, tx: Tx)
    requires next.items == ItemsOf(q, a)[tx.nonce := tx]
    ensures |Queued(q[a := next])| == |Queued(q)| + if tx.nonce in ItemsOf(q, a) then 0 else 1
  {
    hide Queued;
    var n: nat := tx.nonce;
    forall p ensures p in Queued(q[a := next]) <==> p in Queued(q) || p == (a, n) {
      QueuedItems(q, p);
      QueuedItems(q[a := next], p);
    }
    assert Queued(q[a := next]) == Queued(q) + {(a, n)};
    QueuedItems(q, (a, n));
  }

  ghost function Places(a: Address, txs: seq<Tx>): set<(Address, nat)> {
    set t | t in txs :: (a, t.nonce)
  }

  lemma {:induction false} PlacesCount(a: Address, txs: seq<Tx>)
    requires forall i, j :: 0 <= i < j < |txs| ==> txs[i].nonce != txs[j].nonce
    ensures |Places(a, txs)| == |txs|
    decreases |txs|
  {
    if txs != [] {
      var last := |txs| - 1;
      var front, t := txs[..last], txs[last];
      PlacesCount(a, front);
      assert Places(a, txs) == Places(a, front) + {(a, t.nonce)} by {
        assert txs == front + [t];
      }
      assert (a, t.nonce) !in Places(a, front);
    }
  }

  lemma PlacesOfTaken(was: map<nat, Tx>, now: map<nat, Tx>, taken: seq<Tx>, a: Address, n: nat)
    requires Took(was, now, taken) && forall m :: m in was ==> was[m].nonce == m
    ensures (a, n) in Places(a, taken) <==> n in was && n !in now
  {
    if (a, n) in Places(a, taken) {
      var t :| t in taken && (a, t.nonce) == (a, n);
      var i :| 0 <= i < |taken| && taken[i] == t;
    }
    if n in was && n !in now {
      assert was[n] in taken;
    }
  }

  lemma CountTaken(q: Queues, a: Address, next: Queue, taken: seq<Tx>)
    requires a in q && q[a].Ok(a) && Took(q[a].items, next.items, taken)
    ensures |Queued(q[a := next])| == |Queued(q)| - |taken|
  {
    hide Queued, Places, Queue.Ok;
    var all, rest, gone := Queued(q), Queued(q[a := next]), Places(a, taken);
    NoncesFit(q[a], a);
    forall p ensures p in all <==> p in rest || p in gone
      ensures !(p in rest && p in gone)
    {
      QueuedItems(q, p);
      QueuedItems(q[a := next], p);
      if p.0 == a {
        PlacesOfTaken(q[a].items, next.items, taken, a, p.1);
      } else {
        PlacesElsewhere(a, taken, p);
      }
    }
    assert all == rest + gone && rest !! gone;
    PlacesCount(a, taken);
  }

  lemma PlacesElsewhere(a: Address, txs: seq<Tx>, p: (Address, nat))
    requires p.0 != a
    ensures p !in Places(a, txs)
  {
  }

  // ---------------------------------------------------------------- runs of nonces

  /** The nonce is queued, or next to a queued one, or the first. */
  predicate Adjoins(items: map<nat, Tx>, n: nat) {
    items == map[] || n in items || n + 1 in items || (n > 0 && n - 1 in items)
  }

  /** Filing a transaction keeps a run of nonces a run exactly when it adjoins it. */
  lemma PutKeepsRunIff(items: map<nat, Tx>, tx: Tx)
    requires Gapless(items)
    ensures Gapless(items[tx.nonce := tx]) <==> Adjoins(items, tx.nonce)
  {
    var n: nat := tx.nonce;
    var next := items[n := tx];
    if Adjoins(items, n) {
      forall x, y, k: nat | x in next && y in next && x <= k <= y ensures k in next {
      }
    } else {
      var m :| m in items;
      var gap: nat := if m > n then n + 1 else n - 1;
      assert m in next && n in next && gap !in next;
    }
  }

  /** Pushing the successor of the last nonce, or a nonce below the lowest, on a queue whose last
      nonce is its highest keeps the run exactly when it leaves no gap below the lowest. */
  lemma PushKeepsRunIff(q: Queue, tx: Tx, low: Tx)
    requires q.Ok(tx.account) && Gapless(q.items) && IsHead(q.items, low)
    requires q.lastNonce in q.items && forall n :: n in q.items ==> n <= q.lastNonce
    requires q.Accepts(tx.nonce)
    ensures Gapless(q.items[tx.nonce := tx]) <==> low.nonce <= tx.nonce + 1
  {
    InHeap(q, tx.account, low.nonce);
    TopIsHead(q, tx.account);
    PutKeepsRunIff(q.items, tx);
    var n: nat, m: nat := tx.nonce, low.nonce;
    assert m in q.items;
    if low.nonce <= n + 1 {
      assert n in q.items || n + 1 in q.items || (n > 0 && n - 1 in q.items);
    }
  }

  /** The failing case: nonce 3 is accepted below the lowest nonce 5 and leaves a gap. */
  lemma PushLeavesGap(five: Tx, three: Tx)
    requires five.nonce == 5 && three.nonce == 3 && three.account == five.account
    ensures var q := Queue(map[5 := five], [5], 5);
            q.Ok(five.account) && Gapless(q.items) && q.Accepts(3) && !Gapless(q.items[3 := three])
  {
    var q := Queue(map[5 := five], [5], 5);
    assert multiset([5]) == multiset(q.items.Keys);
    assert !Adjoins(q.items, 3);
    PutKeepsRunIff(q.items, three);
  }

  /** What is left of a run below or above a nonce is a run. */
  lemma CutKeepsRun(items: map<nat, Tx>, next: map<nat, Tx>, low: nat, high: nat)
    requires Gapless(items) && forall n :: n in next <==> n in items && low <= n < high
    ensures Gapless(next)
  {
  }

  // ---------------------------------------------------------------- one account at a time

  /** Changing one account's queue keeps the invariant when its head and the count are right. */
  lemma ChangeKeepsInv(q: Queues, dirty: map<Address, Tx>, s: set<Address>, size: nat,
                       a: Address, next: Queue, dirty': map<Address, Tx>, s': set<Address>, size': nat)
    requires Inv(q, dirty, s, size) && next.Ok(a)
    requires forall b :: b != a ==> Get(dirty', b) == Get(dirty, b) && (b in s' <==> b in s)
    requires HeadAt(q[a := next], dirty', s', a) && size' == |Queued(q[a := next])|
    ensures Inv(q[a := next], dirty', s', size')
  {
    var q' := q[a := next];
    forall b ensures HeadAt(q', dirty', s', b) {
      if b != a {
        assert HeadAt(q, dirty, s, b);
        assert ItemsOf(q', b) == ItemsOf(q, b) && Get(dirty', b) == Get(dirty, b);
      }
    }
  }

  lemma PutKeepsInv(q: Queues, dirty: map<Address, Tx>, s: set<Address>, size: nat, next: Queue, tx: Tx)
    requires Inv(q, dirty, s, size) && tx.account !in s && next.Ok(tx.account)
    requires next.items == ItemsOf(q, tx.account)[tx.nonce := tx]
    ensures Inv(q[tx.account := next], Offered(dirty, tx), s,
                if tx.nonce in ItemsOf(q, tx.account) then size else size + 1)
  {
    var a := tx.account;
    CountPut(q, a, next, tx);
    assert HeadAt(q, dirty, s, a);
    assert HeadAt(q[a := next], Offered(dirty, tx), s, a);
    ChangeKeepsInv(q, dirty, s, size, a, next, Offered(dirty, tx), s, |Queued(q[a := next])|);
  }

  lemma CountSame(q: Queues, a: Address, next: Queue)
    requires next.items == ItemsOf(q, a)
    ensures |Queued(q[a := next])| == |Queued(q)|
  {
    hide Queued;
    forall p ensures p in Queued(q[a := next]) <==> p in Queued(q) {
      QueuedItems(q, p);
      QueuedItems(q[a := next], p);
    }
    assert Queued(q[a := next]) == Queued(q);
  }

  lemma TouchKeepsInv(q: Queues, dirty: map<Address, Tx>, s: set<Address>, size: nat, a: Address, next: Queue)
    requires Inv(q, dirty, s, size) && next.Ok(a) && next.items == ItemsOf(q, a)
    ensures Inv(q[a := next], dirty, s, size)
  {
    CountSame(q, a, next);
    assert HeadAt(q, dirty, s, a);
    ChangeKeepsInv(q, dirty, s, size, a, next, dirty, s, size);
  }

  /** Taking transactions out of a queue keeps the invariant when the price heap gets the new head. */
  lemma TakeKeepsInv(q: Queues, dirty: map<Address, Tx>, s: set<Address>, size: nat,
                     a: Address, next: Queue, taken: seq<Tx>, dirty': map<Address, Tx>)
    requires Inv(q, dirty, s, size) && a in q && next.Ok(a) && Took(q[a].items, next.items, taken)
    requires forall b :: b != a ==> Get(dirty', b) == Get(dirty, b)
    requires if next.items == map[] then a !in dirty' else a in dirty' && IsHead(next.items, dirty'[a])
    ensures |taken| <= size && Inv(q[a := next], dirty', s - {a}, size - |taken|)
  {
    CountTaken(q, a, next, taken);
    assert HeadAt(q[a := next], dirty', s - {a}, a);
    ChangeKeepsInv(q, dirty, s, size, a, next, dirty', s - {a}, size - |taken|);
  }

  /** The heap after a pop: the account's next transaction is shifted in if its nonce follows. */
  function Shifted(dirty: map<Address, Tx>, t: Tx, next: map<nat, Tx>): map<Address, Tx> {
    if t.nonce + 1 in next then (dirty - {t.account})[t.account := next[t.nonce + 1]] else dirty - {t.account}
  }

  /** The popped transaction's account when a gap keeps the rest of its queue out of the heap. */
  ghost function Stranded(t: Tx, next: map<nat, Tx>): set<Address> {
    if next == map[] || t.nonce + 1 in next then {} else {t.account}
  }

  lemma RunStrandsNone(items: map<nat, Tx>, t: Tx)
    requires Gapless(items) && IsHead(items, t)
    ensures Stranded(t, items - {t.nonce}) == {}
  {
    var next := items - {t.nonce};
    if next != map[] {
      var m :| m in next;
      var n: nat, k: nat := t.nonce, t.nonce + 1;
      assert n in items && m in items && n <= k <= m;
    }
  }

  lemma PopKeepsInv(q: Queues, dirty: map<Address, Tx>, s: set<Address>, size: nat, t: Tx, next: Queue)
    requires Inv(q, dirty, s, size) && Get(dirty, t.account) == Some(t)
    requires next.Ok(t.account) && next.items == ItemsOf(q, t.account) - {t.nonce}
    ensures IsHead(ItemsOf(q, t.account), t)
    ensures size > 0 && Inv(q[t.account := next], Shifted(dirty, t, next.items), s + Stranded(t, next.items), size - 1)
  {
    hide Took, Queued, Queue.Ok, QueuesOk;
    var a := t.account;
    var dirty', s' := Shifted(dirty, t, next.items), s + Stranded(t, next.items);
    assert HeadAt(q, dirty, s, a);
    assert Took(q[a].items, next.items, [t]) by {
      TookNothing(q[a].items);
      assert Get(q[a].items, t.nonce) == Some(t);
      TakeOne(q[a].items, q[a].items, [], t);
      assert [] + [t] == [t];
    }
    InvQueueOk(q, dirty, s, size, a);
    CountTaken(q, a, next, [t]);
    var n: nat := t.nonce + 1;
    NoncesFit(next, a);
    assert n in next.items ==> IsHead(next.items, next.items[n]);
    assert HeadAt(q[a := next], dirty', s', a);
    ChangeKeepsInv(q, dirty, s, size, a, next, dirty', s', size - 1);
  }

  lemma GaplessTail(items: map<nat, Tx>, t: Tx)
    requires Gapless(items) && IsHead(items, t)
    ensures Gapless(items - {t.nonce})
  {
  }

  lemma SuspendKeepsInv(q: Queues, dirty: map<Address, Tx>, s: set<Address>, size: nat, a: Address)
    requires Inv(q, dirty, s, size) && a in dirty
    ensures a in q && Inv(q, dirty - {a}, s + {a}, size)
  {
    assert HeadAt(q, dirty, s, a);
    assert q[a := q[a]] == q;
    ChangeKeepsInv(q, dirty, s, size, a, q[a], dirty - {a}, s + {a}, size);
  }

  // ---------------------------------------------------------------- the scheduler

  /** Panicked is a nil dereference: the slot after the last possible nonce is taken for the next one. */
  datatype PopResult = Nothing | Popped(tx: Tx) | Panicked

  class PriorityQueue {
    var accountsM: map<Address, AccountQueue>
    const txsByPrice: PriceQueue
    var nonBatchSize: nat
    const getNonceFn: Address -> nat
    /** What the queues hold. */
    ghost var model: Queues
    /** Accounts whose head was dropped from the price heap as invalid and not yet removed. */
    ghost var suspended: set<Address>

    /** The queues are filed under their accounts and hold what they are known to hold. */
    ghost predicate Linked()
      reads this`accountsM, this`model, accountsM.Values
    {
      && (forall a :: a in accountsM <==> a in model)
      && (forall a :: a in accountsM ==> accountsM[a].account == a && accountsM[a].Model() == model[a])
    }

    ghost predicate Valid()
      reads this, txsByPrice, accountsM.Values
    {
      Linked() && txsByPrice.Valid() && Inv(model, txsByPrice.dirtyAccounts, suspended, nonBatchSize)
    }

    constructor (getNonceFn: Address -> nat)
      ensures Valid() && accountsM == map[] && model == map[] && suspended == {} && this.getNonceFn == getNonceFn
      ensures fresh(txsByPrice)
    {
      accountsM, nonBatchSize, model, suspended := map[], 0, map[], {};
      txsByPrice := new PriceQueue();
      this.getNonceFn := getNonceFn;
      new;
      assert Queued(model) == {};
      assert forall a :: HeadAt(model, txsByPrice.dirtyAccounts, suspended, a);
    }

    /** The queue object of an account, if it has one. */
    ghost function Footprint(a: Address): set<object>
      reads this`accountsM
    {
      if a in accountsM then {accountsM[a]} else {}
    }

    /** The account's queue, an empty one when there is none yet. */
    ghost function QueueOf(a: Address): Queue
      reads this
    {
      if a in model then model[a] else Queue(map[], [], getNonceFn(a))
    }

    method NewQueue(from: Address)
      requires Linked() && from !in accountsM
      modifies this`accountsM, this`model
      ensures Linked() && from in accountsM && fresh(accountsM[from])
              && accountsM == old(accountsM)[from := accountsM[from]]
      ensures model == old(model)[from := old(QueueOf(from))] && old(QueueOf(from)).Ok(from)
    {
      hide Queue.Ok;
      var account := new AccountQueue(getNonceFn(from), from);
      assert Linked();
      accountsM, model := accountsM[from := account], model[from := account.Model()];
      forall a | a in accountsM ensures accountsM[a].account == a && accountsM[a].Model() == model[a] {
        if a != from { assert a in old(accountsM); }
      }
    }

    method GetOrNew(from: Address) returns (account: AccountQueue)
      requires Valid()
      modifies this`accountsM, this`model
      ensures Valid() && from in accountsM && account == accountsM[from] && account.Model() == QueueOf(from)
      ensures from in old(accountsM) ==> accountsM == old(accountsM)
      ensures from !in old(accountsM) ==> fresh(account) && accountsM == old(accountsM)[from := account]
      ensures model == old(model)[from := old(QueueOf(from))]
    {
      hide Inv, Queue.Ok, PriceQueue.Valid, PriorityQueue.Linked;
      LinkedKeys();
      if from !in accountsM {
        ghost var q := model;
        NewQueue(from);
        TouchKeepsInv(q, txsByPrice.dirtyAccounts, suspended, nonBatchSize, from, model[from]);
      }
      LinkedKeys();
      assert model[from := model[from]] == model;
      account := accountsM[from];
    }

    method PushTo(tx: Tx) returns (replaced: bool)
      requires Linked() && tx.account in accountsM && model[tx.account].Ok(tx.account)
      modifies this`model, accountsM[tx.account]
      ensures Linked() && tx.account in model && model[tx.account].Ok(tx.account)
      ensures model == old(model)[tx.account := model[tx.account]]
      ensures model[tx.account].items == old(model)[tx.account].items[tx.nonce := tx]
      ensures model[tx.account].lastNonce == old(model)[tx.account].LastAfter(tx.nonce)
      ensures replaced == (tx.nonce in old(model)[tx.account].items)
    {
      hide Queue.Ok;
      var account := accountsM[tx.account];
      replaced := account.Push(tx);
      model := model[tx.account := account.Model()];
    }

    method PopFrom(from: Address) returns (tx: Option<Tx>)
      requires Linked() && from in accountsM && model[from].Ok(from)
      modifies this`model, accountsM[from]
      ensures Linked() && from in model && model[from].Ok(from) && model == old(model)[from := model[from]]
      ensures model[from].lastNonce == old(model)[from].lastNonce
      ensures old(model)[from].items == map[] ==> tx.None?
      ensures old(model)[from].items != map[] ==> tx.Some? && IsHead(old(model)[from].items, tx.value)
                                                  && model[from].items == old(model)[from].items - {tx.value.nonce}
    {
      hide Queue.Ok, IsHead;
      var account := accountsM[from];
      tx := account.Pop();
      model := model[from := account.Model()];
    }

    /** File a transaction in its account's queue, or replace the one of the same nonce. */
    method Enqueue(tx: Tx)
      requires Valid() && tx.account !in suspended && tx.account in accountsM
      modifies this`model, this`nonBatchSize, accountsM[tx.account], txsByPrice
      ensures Valid()
      ensures model == old(model)[tx.account := QueueOf(tx.account)]
      ensures QueueOf(tx.account).items == old(QueueOf(tx.account).items)[tx.nonce := tx]
      ensures QueueOf(tx.account).lastNonce == old(QueueOf(tx.account)).LastAfter(tx.nonce)
    {
      hide Inv, Queue.Ok, PriceQueue.Valid, Offered, PriorityQueue.Linked;
      LinkedKeys();
      ghost var q := model;
      InvQueueOk(model, txsByPrice.dirtyAccounts, suspended, nonBatchSize, tx.account);
      var replaced := PushTo(tx);
      PutKeepsInv(q, txsByPrice.dirtyAccounts, suspended, nonBatchSize, model[tx.account], tx);
      if !replaced {
        nonBatchSize := nonBatchSize + 1;
      }
      txsByPrice.Push(tx);
    }

    lemma LinkedKeys()
      requires Linked()
      ensures forall a :: a in accountsM <==> a in model
      ensures forall a :: a in accountsM ==> accountsM[a].Model() == model[a]
    {
    }

    /** Take the next transaction of an account. */
    method Push(tx: Tx)
      requires Valid() && tx.account !in suspended
      modifies this, txsByPrice, Footprint(tx.account)
      ensures Valid() && suspended == old(suspended)
      ensures forall a :: a in accountsM ==>
              (a in old(accountsM) && accountsM[a] == old(accountsM)[a]) || fresh(accountsM[a])
      ensures model == old(model)[tx.account := QueueOf(tx.account)]
      ensures var q := old(QueueOf(tx.account));
              if q.Accepts(tx.nonce)
              then QueueOf(tx.account).items == q.items[tx.nonce := tx]
                  && QueueOf(tx.account).lastNonce == q.LastAfter(tx.nonce)
              else QueueOf(tx.account) == q
    {
      hide Inv, Queue.Ok, Queue.Accepts, PriceQueue.Valid, PriorityQueue.Linked;
      var account := GetOrNew(tx.account);
      var ok := account.IsValidPush(tx.nonce);
      if ok {
        Enqueue(tx);
      }
    }

    /** Put a transaction of a failed batch back. The heads stay right exactly when the transaction does
        not clash with a different object queued as head under its nonce. */
    method PushBack(tx: Tx)
      requires Valid() && tx.account !in suspended
      modifies this, txsByPrice, Footprint(tx.account)
      ensures forall a :: a in accountsM ==>
              (a in old(accountsM) && accountsM[a] == old(accountsM)[a]) || fresh(accountsM[a])
      ensures suspended == old(suspended) && model == old(model)[tx.account := QueueOf(tx.account)]
      ensures var q := old(QueueOf(tx.account));
              && (tx.nonce in q.items ==>
                    && QueueOf(tx.account) == q
                    && (Valid() <==> q.items[tx.nonce] == tx || !IsHead(q.items, q.items[tx.nonce])))
              && (tx.nonce !in q.items ==>
                    && Valid() && QueueOf(tx.account).items == q.items[tx.nonce := tx]
                    && QueueOf(tx.account).lastNonce == q.LastAfter(tx.nonce))
    {
      hide Inv, Queue.Ok, PriceQueue.Valid, PriorityQueue.Linked, IsHead, Offered;
      var account := GetOrNew(tx.account);
      if tx.nonce !in account.items {
        Enqueue(tx);
      } else {
        OfferKeepsInvIff(model, txsByPrice.dirtyAccounts, suspended, nonBatchSize, tx);
        assert model[tx.account := model[tx.account]] == model;
        txsByPrice.Push(tx);
      }
    }

    /** Move the account's next transaction to the price heap. The result is false where the source
        would dereference nil. The panic on an account still in the heap cannot happen. */
    method Shift(from: Address, lastNonce: nat) returns (ok: bool)
      requires Linked() && txsByPrice.Valid() && from !in txsByPrice.dirtyAccounts && from in model
      requires forall n :: n in model[from].items ==> model[from].items[n].account == from
      modifies txsByPrice
      ensures txsByPrice.Valid()
      ensures model[from].Top() == (lastNonce + 1) % (MAX_UINT64 + 1) ==>
                ok == (model[from].Top() in model[from].items)
                && txsByPrice.dirtyAccounts == if ok
                    then old(txsByPrice.dirtyAccounts)[from := model[from].items[model[from].Top()]]
                                               else old(txsByPrice.dirtyAccounts)
      ensures model[from].Top() != (lastNonce + 1) % (MAX_UINT64 + 1) ==>
                ok && txsByPrice.dirtyAccounts == old(txsByPrice.dirtyAccounts)
    {
      hide PriceQueue.Valid;
      if from !in accountsM {
        return true;
      }
      var account := accountsM[from];
      var nonce := account.PeekItem();
      if (lastNonce + 1) % (MAX_UINT64 + 1) != nonce {
        return true;
      }
      if from in txsByPrice.dirtyAccounts {
        assert false;
      }
      if nonce !in account.items {
        return false;
      }
      txsByPrice.Push(account.items[nonce]);
      return true;
    }

    /** Take the transaction just popped from the price heap out of its queue and shift the next one
        in. The panic on a nonce mismatch cannot happen. */
    method Advance(tx: Tx, ghost dirty: map<Address, Tx>) returns (ok: bool)
      requires Linked() && txsByPrice.Valid() && Inv(model, dirty, suspended, nonBatchSize)
      requires Get(dirty, tx.account) == Some(tx) && txsByPrice.dirtyAccounts == dirty - {tx.account}
      requires tx.account in accountsM
      modifies this`nonBatchSize, this`model, this`suspended, txsByPrice, accountsM[tx.account]
      ensures var items := ItemsOf(old(model), tx.account);
              IsHead(items, tx) && ok == !(tx.nonce == MAX_UINT64 - 1 && items - {tx.nonce} == map[])
      ensures ok ==> Valid() && model == old(model)[tx.account := QueueOf(tx.account)]
      ensures ok ==>
              QueueOf(tx.account).items == ItemsOf(old(model), tx.account) - {tx.nonce}
              && nonBatchSize == old(nonBatchSize) - 1
      ensures ok ==> QueueOf(tx.account).lastNonce == old(QueueOf(tx.account)).lastNonce
      ensures ok ==> txsByPrice.dirtyAccounts == Shifted(dirty, tx, QueueOf(tx.account).items)
      ensures ok ==> suspended == old(suspended) + Stranded(tx, QueueOf(tx.account).items)
    {
      hide Inv, Queue.Ok, Queue.Top, IsHead, Gapless, PriceQueue.Valid, PriorityQueue.Linked, Stranded;
      LinkedKeys();
      var from := tx.account;
      ghost var q := model;
      DirtyIsQueued(model, dirty, suspended, nonBatchSize, tx);
      var popped := PopFrom(from);
      HeadIsUnique(q[from].items, tx, popped.value);
      if popped.None? || popped.value.nonce != tx.nonce {
        assert false;
      }
      PopKeepsInv(q, dirty, suspended, nonBatchSize, tx, model[from]);
      AfterPop(q[from].items, tx, model[from]);
      ok := Shift(from, tx.nonce);
      if ok {
        nonBatchSize := nonBatchSize - 1;
        suspended := suspended + Stranded(tx, model[from].items);
      }
    }

    /** Pop the highest-priced head. What lies behind a gap in its queue is left out of the heap. */
    method Pop() returns (r: PopResult)
      requires Valid()
      modifies this`nonBatchSize, this`model, this`suspended, txsByPrice, accountsM.Values
      ensures old(txsByPrice.priced) == [] ==>
              r.Nothing? && Valid() && model == old(model) && suspended == old(suspended)
      ensures old(txsByPrice.priced) != [] ==>
                var t := old(txsByPrice.priced[0]);
                var items := ItemsOf(old(model), t.account);
                && Get(old(txsByPrice.dirtyAccounts), t.account) == Some(t) && IsHead(items, t)
                    && t.account !in old(suspended)
                && t.account in old(model)
                && (forall a :: a in old(txsByPrice.dirtyAccounts) ==>
                      var u := old(txsByPrice.dirtyAccounts)[a];
                      u.gasPrice <= t.gasPrice && (u.gasPrice == t.gasPrice ==> t.timestamp <= u.timestamp))
                && (if t.nonce == MAX_UINT64 - 1 && items - {t.nonce} == map[] then r.Panicked?
                    else r == Popped(t) && Valid() && model == old(model)[t.account := QueueOf(t.account)]
                         && QueueOf(t.account).items == items - {t.nonce} && nonBatchSize == old(nonBatchSize) - 1
                         && QueueOf(t.account).lastNonce == old(model)[t.account].lastNonce
                         && suspended == old(suspended) + Stranded(t, QueueOf(t.account).items)
                         && txsByPrice.dirtyAccounts == Shifted(old(txsByPrice.dirtyAccounts), t,
                             QueueOf(t.account).items))
    {
      hide Inv, Queue.Ok, IsHead, Mirrors, Filed, IsHeap, Shifted, Stranded;
      if |txsByPrice.priced| == 0 {
        return Nothing;
      }
      BestOfAll(txsByPrice.priced, txsByPrice.dirtyAccounts);
      ghost var dirty := txsByPrice.dirtyAccounts;
      var top := txsByPrice.Pop();
      DirtyIsQueued(model, dirty, suspended, nonBatchSize, top.value);
      var ok := Advance(top.value, dirty);
      r := if ok then Popped(top.value) else Panicked;
    }

    method RemoveBehindFrom(from: Address, nonce: nat) returns (removed: seq<Tx>, any: bool)
      requires Linked() && from in accountsM && model[from].Ok(from)
      modifies this`model, accountsM[from]
      ensures Linked() && from in model && model[from].Ok(from) && model == old(model)[from := model[from]]
      ensures Took(old(model)[from].items, model[from].items, removed) && any == (removed != [])
      ensures model[from].lastNonce == if nonce == 0 then 0 else nonce - 1
      ensures forall n :: n in model[from].items <==> n in old(model)[from].items && n < nonce
    {
      hide Queue.Ok, Took;
      var account := accountsM[from];
      removed, any := account.RemoveBehind(nonce);
      model := model[from := account.Model()];
    }

    method PruneFrom(from: Address, nonce: nat) returns (pruned: seq<Tx>)
      requires Linked() && from in accountsM && model[from].Ok(from)
      modifies this`model, accountsM[from]
      ensures Linked() && from in model && model[from].Ok(from) && model == old(model)[from := model[from]]
      ensures Took(old(model)[from].items, model[from].items, pruned) && Rising(pruned)
      ensures model[from].lastNonce == old(model)[from].lastNonce
      ensures forall n :: n in model[from].items <==> n in old(model)[from].items && (n > nonce || n == MAX_UINT64)
    {
      hide Queue.Ok, Took, Rising;
      var account := accountsM[from];
      pruned := account.Prune(nonce);
      model := model[from := account.Model()];
    }

    method PeekAt(from: Address) returns (tx: Option<Tx>)
      requires Linked() && from in accountsM && model[from].Ok(from)
      ensures model[from].items == map[] ==> tx.None?
      ensures model[from].items != map[] ==> tx.Some? && IsHead(model[from].items, tx.value)
    {
      hide Queue.Ok, IsHead;
      tx := accountsM[from].Peek();
    }

    /** Remove an account's transactions from the given one's nonce on. Heads and heap stay right exactly
        when the account's head has a lower nonce or is the very transaction given. For a suspended
        account that is the dropped head, so the account starts afresh. */
    method RemoveTxBehindNonce(tx: Tx) returns (removed: seq<Tx>)
      requires Valid()
      requires tx.account in suspended ==> IsHead(ItemsOf(model, tx.account), tx)
      modifies this`model, this`nonBatchSize, this`suspended, txsByPrice, Footprint(tx.account)
      ensures Valid() <==> CutsAtHead(ItemsOf(old(model), tx.account), tx)
      ensures suspended == old(suspended) - {tx.account}
      ensures model == if tx.account in old(model) then old(model)[tx.account := QueueOf(tx.account)] else old(model)
      ensures Took(ItemsOf(old(model), tx.account), ItemsOf(model, tx.account), removed)
      ensures forall n :: n in ItemsOf(model, tx.account) <==> n in ItemsOf(old(model), tx.account) && n < tx.nonce
      ensures tx.account in model ==> model[tx.account].lastNonce == if tx.nonce == 0 then 0 else tx.nonce - 1
    {
      hide Inv, Queue.Ok, PriceQueue.Valid, PriorityQueue.Linked, Took, IsHead, CutsAtHead, Named;
      LinkedKeys();
      var from := tx.account;
      if from !in accountsM {
        TookNothing(map[]);
        NoHead(tx);
        MissingIsNotSuspended(model, txsByPrice.dirtyAccounts, suspended, nonBatchSize, from);
        suspended := suspended - {from};
        return [];
      }
      ghost var q, dirty := model, txsByPrice.dirtyAccounts;
      InvQueueOk(q, dirty, suspended, nonBatchSize, from);
      var dropped := txsByPrice.Remove(tx);
      var any;
      removed, any := RemoveBehindFrom(from, tx.nonce);
      BehindKeepsInvIff(q, dirty, suspended, nonBatchSize, tx, model[from], removed);
      suspended := suspended - {from};
      if any {
        nonBatchSize := nonBatchSize - |removed|;
      }
    }

    /** Prune an account whose head is given and offer the new head. */
    method PruneAccount(minNonceTx: Tx, nonce: nat) returns (removed: seq<Tx>)
      requires Valid() && minNonceTx.account in accountsM && minNonceTx.account in model
               && minNonceTx.account !in suspended
      requires IsHead(model[minNonceTx.account].items, minNonceTx)
      modifies this`model, this`nonBatchSize, txsByPrice, Footprint(minNonceTx.account)
      ensures Valid() && Rising(removed) && minNonceTx.account in model
      ensures model == old(model)[minNonceTx.account := model[minNonceTx.account]]
      ensures Took(old(model)[minNonceTx.account].items, model[minNonceTx.account].items, removed)
      ensures forall n :: n in model[minNonceTx.account].items <==>
                          n in old(model)[minNonceTx.account].items && (n > nonce || n == MAX_UINT64)
    {
      hide Inv, Queue.Ok, PriceQueue.Valid, PriorityQueue.Linked, Took, Offered, Rising, IsHead;
      ghost var q, dirty := model, txsByPrice.dirtyAccounts;
      var from := minNonceTx.account;
      InvQueueOk(q, dirty, suspended, nonBatchSize, from);
      HeadIsLowest(q[from].items, minNonceTx);
      QueuedHead(q, dirty, suspended, nonBatchSize, minNonceTx);
      var dropped := txsByPrice.Remove(minNonceTx);
      removed := PruneFrom(from, nonce);
      var shiftTx := PeekAt(from);
      BeforeKeepsInv(q, dirty, suspended, nonBatchSize, minNonceTx, model[from], removed, shiftTx);
      nonBatchSize := nonBatchSize - |removed|;
      if shiftTx.Some? {
        txsByPrice.Push(shiftTx.value);
      }
    }

    /** Remove an account's transactions up to and including the given nonce. */
    method RemoveTxBeforeNonce(from: Address, nonce: nat) returns (removed: seq<Tx>)
      requires Valid() && from !in suspended
      modifies this`model, this`nonBatchSize, txsByPrice, Footprint(from)
      ensures Valid() && Rising(removed)
      ensures model == if from in old(model) then old(model)[from := QueueOf(from)] else old(model)
      ensures Took(ItemsOf(old(model), from), ItemsOf(model, from), removed)
      ensures forall n :: n in ItemsOf(model, from) <==>
              n in ItemsOf(old(model), from) && (n > nonce || n == MAX_UINT64)
    {
      hide Inv, Queue.Ok, PriceQueue.Valid, PriorityQueue.Linked, Took, Rising;
      LinkedKeys();
      TookNothing(ItemsOf(model, from));
      if from !in accountsM {
        return [];
      }
      InvQueueOk(model, txsByPrice.dirtyAccounts, suspended, nonBatchSize, from);
      assert model[from := model[from]] == model;
      var minNonceTx := PeekAt(from);
      if minNonceTx.None? || nonce < minNonceTx.value.nonce {
        return [];
      }
      ItemIsFiled(model[from], from, minNonceTx.value);
      removed := PruneAccount(minNonceTx.value, nonce);
    }

    /** Replace a queued transaction by another of the same account and nonce. The result tells
        whether it was the account's head. A nonce that is not queued is queued without being counted,
        so the size stays right exactly when the nonce is queued or the account unknown. */
    method ReplaceTx(tx: Tx) returns (replacedHead: bool)
      requires Valid() && tx.account !in suspended
      modifies this`model, txsByPrice, Footprint(tx.account)
      ensures Valid() <==> (tx.account in old(model) ==> tx.nonce in old(model)[tx.account].items)
      ensures model == if tx.account in old(model) then old(model)[tx.account := QueueOf(tx.account)] else old(model)
      ensures tx.account in model ==> model[tx.account].items == old(model)[tx.account].items[tx.nonce := tx]
      ensures replacedHead == (tx.account in model && tx.nonce in old(model)[tx.account].items
              && IsHead(model[tx.account].items, tx))
    {
      hide Inv, Queue.Ok, PriceQueue.Valid, PriorityQueue.Linked, Offered, IsHead, Named;
      LinkedKeys();
      if tx.account !in accountsM {
        return false;
      }
      ghost var q, dirty := model, txsByPrice.dirtyAccounts;
      InvQueueOk(q, dirty, suspended, nonBatchSize, tx.account);
      var oldTx := Get(accountsM[tx.account].items, tx.nonce);
      var replaced := PushTo(tx);
      if !replaced {
        UncountedBreaksInv(q, dirty, suspended, nonBatchSize, model[tx.account], tx);
        return false;
      }
      replacedHead := ReplaceHead(oldTx.value, tx, q);
    }

    /** The price-heap part of a replacement. */
    method ReplaceHead(oldTx: Tx, tx: Tx, ghost q: Queues) returns (replacedHead: bool)
      requires Linked() && txsByPrice.Valid() && tx.account !in suspended && tx.account in q && tx.account in model
      requires Inv(q, txsByPrice.dirtyAccounts, suspended, nonBatchSize) && model == q[tx.account := model[tx.account]]
      requires model[tx.account].Ok(tx.account) && Get(q[tx.account].items, tx.nonce) == Some(oldTx)
      requires model[tx.account].items == q[tx.account].items[tx.nonce := tx]
      modifies txsByPrice
      ensures Valid() && replacedHead == IsHead(model[tx.account].items, tx)
    {
      hide Inv, Queue.Ok, PriceQueue.Valid, PriorityQueue.Linked, Offered, IsHead;
      ghost var dirty := txsByPrice.dirtyAccounts;
      InvQueueOk(q, dirty, suspended, nonBatchSize, tx.account);
      NoncesFit(q[tx.account], tx.account);
      ItemIsFiled(q[tx.account], tx.account, oldTx);
      QueuedHead(q, dirty, suspended, nonBatchSize, oldTx);
      ReplaceKeepsInv(q, dirty, suspended, nonBatchSize, model[tx.account], tx);
      replacedHead := txsByPrice.Remove(oldTx);
      HeadReplaced(q[tx.account].items, dirty[tx.account], oldTx, tx);
      if replacedHead {
        txsByPrice.Push(tx);
      }
    }

    /** Drop the top of the price heap, leaving its account's queue as it is. */
    method DropTop() returns (tx: Tx)
      requires Valid() && txsByPrice.priced != []
      modifies this`suspended, txsByPrice
      ensures Valid() && tx == old(txsByPrice.priced[0]) && IsHead(ItemsOf(model, tx.account), tx)
      ensures Get(old(txsByPrice.dirtyAccounts), tx.account) == Some(tx) && tx.account !in old(suspended)
      ensures suspended == old(suspended) + {tx.account}
              && txsByPrice.dirtyAccounts == old(txsByPrice.dirtyAccounts) - {tx.account}
      ensures |txsByPrice.priced| == |old(txsByPrice.priced)| - 1
    {
      hide Inv, Queue.Ok, IsHead, PriceQueue.Valid, PriorityQueue.Linked;
      ghost var dirty := txsByPrice.dirtyAccounts;
      var top := txsByPrice.Pop();
      tx := top.value;
      DirtyIsQueued(model, dirty, suspended, nonBatchSize, tx);
      SuspendKeepsInv(model, dirty, suspended, nonBatchSize, tx.account);
      suspended := suspended + {tx.account};
    }

    /** Set the nonce the next push is compared with. */
    method UpdateAccountNonce(from: Address, nonce: nat)
      requires Valid()
      modifies this`model, Footprint(from)
      ensures Valid() && model == if from in old(model) then old(model)[from := old(model)[from].(lastNonce := nonce)]
              else old(model)
    {
      hide Inv, Queue.Ok, PriceQueue.Valid, PriorityQueue.Linked;
      LinkedKeys();
      if from in accountsM {
        ghost var next := model[from].(lastNonce := nonce);
        InvQueueOk(model, txsByPrice.dirtyAccounts, suspended, nonBatchSize, from);
        OkIgnoresLast(model[from], from, nonce);
        TouchKeepsInv(model, txsByPrice.dirtyAccounts, suspended, nonBatchSize, from, next);
        SetLast(from, nonce);
      }
    }

    method SetLast(from: Address, nonce: nat)
      requires Linked() && from in accountsM && from in model
      modifies this`model, accountsM[from]
      ensures Linked() && model == old(model)[from := old(model)[from].(lastNonce := nonce)]
    {
      var account := accountsM[from];
      account.lastNonce := nonce;
      model := model[from := account.Model()];
    }
  }

  lemma DirtyIsQueued(q: Queues, dirty: map<Address, Tx>, s: set<Address>, size: nat, t: Tx)
    requires Inv(q, dirty, s, size) && Get(dirty, t.account) == Some(t)
    ensures t.account in q && q[t.account].Ok(t.account) && IsHead(q[t.account].items, t) && t.account !in s
  {
    assert HeadAt(q, dirty, s, t.account);
  }

  /** What shift sees after a pop. */
  lemma AfterPop(items: map<nat, Tx>, t: Tx, next: Queue)
    requires IsHead(items, t) && next.Ok(t.account) && next.items == items - {t.nonce}
    ensures forall n :: n in next.items ==> next.items[n].account == t.account
    ensures next.items == map[] ==> next.Top() == MAX_UINT64 && next.Top() !in next.items
    ensures next.items != map[] ==> next.Top() in next.items
                                    && (next.Top() == (t.nonce + 1) % (MAX_UINT64 + 1) <==> t.nonce + 1 in next.items)
                                    && (t.nonce + 1 in next.items ==> next.Top() == t.nonce + 1)
  {
    HeapSize(next.heap, next.items.Keys);
    if next.items != map[] {
      TopIsHead(next, t.account);
      NoncesFit(next, t.account);
      assert next.Top() in items && next.Top() > t.nonce;
      assert (t.nonce + 1) % (MAX_UINT64 + 1) == t.nonce + 1;
    }
  }

  lemma MissingIsNotSuspended(q: Queues, dirty: map<Address, Tx>, s: set<Address>, size: nat, a: Address)
    requires Inv(q, dirty, s, size) && a !in q
    ensures Inv(q, dirty, s - {a}, size)
  {
    forall b ensures HeadAt(q, dirty, s - {a}, b) {
      assert HeadAt(q, dirty, s, b);
    }
  }

  /** The price heap's entry of an account with a queued transaction is the head, if not suspended. */
  lemma QueuedHead(q: Queues, dirty: map<Address, Tx>, s: set<Address>, size: nat, t: Tx)
    requires Inv(q, dirty, s, size) && t.account in q && Get(q[t.account].items, t.nonce) == Some(t)
    ensures t.account in dirty <==> t.account !in s
    ensures t.account in dirty ==> IsHead(q[t.account].items, dirty[t.account])
    ensures t.account in dirty && dirty[t.account].nonce == t.nonce ==> dirty[t.account] == t
  {
    assert HeadAt(q, dirty, s, t.account);
  }

  /** Cutting from the transaction's nonce on empties the queue only together with its own head. */
  ghost predicate CutsAtHead(items: map<nat, Tx>, t: Tx) {
    forall h :: IsHead(items, h) ==> h.nonce < t.nonce || h == t
  }

  lemma NoHead(t: Tx)
    ensures CutsAtHead(map[], t)
  {
  }

  lemma CutsAtHeadIs(items: map<nat, Tx>, h: Tx, t: Tx)
    requires IsHead(items, h)
    ensures CutsAtHead(items, t) <==> h.nonce < t.nonce || h == t
  {
    forall g | IsHead(items, g) ensures g == h {
      HeadIsUnique(items, g, h);
    }
  }

  /** Removing from a nonce on leaves the heads right exactly when it cuts at the head. */
  lemma BehindKeepsInvIff(q: Queues, dirty: map<Address, Tx>, s: set<Address>, size: nat, t: Tx, next: Queue,
                          removed: seq<Tx>)
    requires Inv(q, dirty, s, size) && t.account in q && (t.account in s ==> IsHead(q[t.account].items, t))
    requires next.Ok(t.account) && Took(q[t.account].items, next.items, removed)
    requires forall n :: n in next.items <==> n in q[t.account].items && n < t.nonce
    ensures |removed| <= size
    ensures var dirty' := if Named(dirty, t) then dirty - {t.account} else dirty;
            Inv(q[t.account := next], dirty', s - {t.account}, size - |removed|)
                && (Named(dirty, t) ==> Get(dirty, t.account) == Some(t))
            <==> CutsAtHead(q[t.account].items, t)
  {
    var a := t.account;
    var dirty' := if Named(dirty, t) then dirty - {a} else dirty;
    InvQueueOk(q, dirty, s, size, a);
    CountTaken(q, a, next, removed);
    assert HeadAt(q, dirty, s, a);
    if a in dirty {
      var h := dirty[a];
      CutsAtHeadIs(q[a].items, h, t);
      if h.nonce < t.nonce {
        var n: nat := h.nonce;
        assert n in next.items;
        TakeKeepsInv(q, dirty, s, size, a, next, removed, dirty');
      } else if h == t {
        TakeKeepsInv(q, dirty, s, size, a, next, removed, dirty');
      } else if h.nonce > t.nonce {
        assert next.items == map[];
        assert !HeadAt(q[a := next], dirty', s - {a}, a);
      }
    } else {
      if a in s {
        CutsAtHeadIs(q[a].items, t, t);
      } else {
        NoHead(t);
      }
      TakeKeepsInv(q, dirty, s, size, a, next, removed, dirty');
    }
  }

  /** Offering a transaction whose nonce is queued keeps the heads right exactly when it is the queued
      object or not the head. */
  lemma OfferKeepsInvIff(q: Queues, dirty: map<Address, Tx>, s: set<Address>, size: nat, tx: Tx)
    requires Inv(q, dirty, s, size) && tx.account in q && tx.account !in s && tx.nonce in q[tx.account].items
    ensures var items := q[tx.account].items;
            Inv(q, Offered(dirty, tx), s, size) <==> items[tx.nonce] == tx || !IsHead(items, items[tx.nonce])
  {
    var a, items := tx.account, q[tx.account].items;
    var was := items[tx.nonce];
    InvQueueOk(q, dirty, s, size, a);
    NoncesFit(q[a], a);
    assert HeadAt(q, dirty, s, a);
    if dirty[a].nonce >= tx.nonce {
      assert dirty[a] == was && IsHead(items, was);
      if was == tx {
        assert Offered(dirty, tx) == dirty;
      } else {
        assert !HeadAt(q, Offered(dirty, tx), s, a);
      }
    }
  }

  /** Queueing a transaction without counting it breaks the size. */
  lemma UncountedBreaksInv(q: Queues, dirty: map<Address, Tx>, s: set<Address>, size: nat, next: Queue, tx: Tx)
    requires Inv(q, dirty, s, size) && next.items == ItemsOf(q, tx.account)[tx.nonce := tx]
             && tx.nonce !in ItemsOf(q, tx.account)
    ensures !Inv(q[tx.account := next], dirty, s, size)
  {
    CountPut(q, tx.account, next, tx);
  }

  /** Pruning a queue from the front and offering its new head. */
  lemma BeforeKeepsInv(q: Queues, dirty: map<Address, Tx>, s: set<Address>, size: nat, t: Tx, next: Queue,
                       pruned: seq<Tx>, head: Option<Tx>)
    requires Inv(q, dirty, s, size) && t.account in q && t.account !in s && IsHead(q[t.account].items, t)
    requires next.Ok(t.account) && Took(q[t.account].items, next.items, pruned)
    requires if next.items == map[] then head.None? else head.Some? && IsHead(next.items, head.value)
    ensures head.Some? ==> head.value.account == t.account
    ensures var others := dirty - {t.account};
            && |pruned| <= size
            && Inv(q[t.account := next], if head.Some? then Offered(others, head.value) else others, s, size - |pruned|)
  {
    hide Inv;
    var others := dirty - {t.account};
    assert s - {t.account} == s;
    TakeKeepsInv(q, dirty, s, size, t.account, next, pruned,
                 if head.Some? then Offered(others, head.value) else others);
  }

  /** Replacing a queued transaction, in the price heap too if it is the head. */
  lemma ReplaceKeepsInv(q: Queues, dirty: map<Address, Tx>, s: set<Address>, size: nat, next: Queue, tx: Tx)
    requires Inv(q, dirty, s, size) && tx.account !in s && next.Ok(tx.account)
    requires tx.account in q && tx.nonce in q[tx.account].items && next.items == q[tx.account].items[tx.nonce := tx]
    requires q[tx.account].items[tx.nonce].account == tx.account && q[tx.account].items[tx.nonce].nonce == tx.nonce
    ensures var was := q[tx.account].items[tx.nonce];
            Inv(q[tx.account := next],
                if Get(dirty, tx.account) == Some(was) then Offered(dirty - {tx.account}, tx) else dirty, s, size)
  {
    hide Inv, Queue.Ok;
    var was := q[tx.account].items[tx.nonce];
    QueuedHead(q, dirty, s, size, was);
    PutKeepsInv(q, dirty, s, size, next, tx);
    if Get(dirty, tx.account) == Some(was) {
      assert Offered(dirty - {tx.account}, tx) == Offered(dirty, tx);
    } else {
      assert Offered(dirty, tx) == dirty;
    }
  }

  lemma HeadReplaced(items: map<nat, Tx>, head: Tx, was: Tx, tx: Tx)
    requires IsHead(items, head) && Get(items, tx.nonce) == Some(was) && was.nonce == tx.nonce
    ensures head == was <==> IsHead(items[tx.nonce := tx], tx)
  {
    if IsHead(items[tx.nonce := tx], tx) {
      assert head.nonce in items[tx.nonce := tx];
    }
  }

  lemma ItemIsFiled(q: Queue, a: Address, t: Tx)
    requires q.Ok(a) && t.nonce in q.items && q.items[t.nonce] == t
    ensures t.account == a
  {
  }

  lemma InvQueueOk(q: Queues, dirty: map<Address, Tx>, s: set<Address>, size: nat, a: Address)
    requires Inv(q, dirty, s, size) && a in q
    ensures q[a].Ok(a)
  {
  }

  lemma QueuedFit(q: Queues, dirty: map<Address, Tx>, s: set<Address>, size: nat)
    requires Inv(q, dirty, s, size)
    ensures forall a, n :: n in ItemsOf(q, a) ==> n <= MAX_UINT64
  {
    hide Queue.Ok;
    forall a, n | n in ItemsOf(q, a) ensures n <= MAX_UINT64 {
      NoncesFit(q[a], a);
    }
  }
}
