/** Building a batch in price order. */
module BatchByPrice {
  import opened Types
  import opened Heaps
  import opened NonceQueues
  import opened PriceQueues
  import opened PriorityQueues

  /** One account's transactions, in batch order. */
  function OfAccount(batch: seq<Tx>, a: Address): seq<Tx> {
    if batch == [] then []
    else
      var front, t := OfAccount(batch[..|batch| - 1], a), batch[|batch| - 1];
      if t.account == a then front + [t] else front
  }

  lemma OfAccountSnoc(batch: seq<Tx>, t: Tx, a: Address)
    ensures OfAccount(batch + [t], a) == OfAccount(batch, a) + if t.account == a then [t] else []
  {
    assert (batch + [t])[..|batch|] == batch;
  }

  /** The batch took from the account's queue its lowest nonces, in order, and nothing else. */
  ghost predicate DrewFrom(was: map<nat, Tx>, now: map<nat, Tx>, part: seq<Tx>) {
    Took(was, now, part) && Rising(part) && Below(part, now)
  }

  ghost predicate Drew(q: Queues, now: Queues, batch: seq<Tx>) {
    forall a :: DrewFrom(ItemsOf(q, a), ItemsOf(now, a), OfAccount(batch, a))
  }

  lemma DrewNothing(q: Queues)
    ensures Drew(q, q, [])
  {
    forall a ensures DrewFrom(ItemsOf(q, a), ItemsOf(q, a), OfAccount([], a)) {
      TookNothing(ItemsOf(q, a));
    }
  }

  lemma DrawHead(q: Queues, now: Queues, batch: seq<Tx>, t: Tx, next: Queue)
    requires Drew(q, now, batch) && IsHead(ItemsOf(now, t.account), t)
             && next.items == ItemsOf(now, t.account) - {t.nonce}
    ensures Drew(q, now[t.account := next], batch + [t])
  {
    hide Took, Rising, Below, OfAccount;
    var now' := now[t.account := next];
    forall a ensures DrewFrom(ItemsOf(q, a), ItemsOf(now', a), OfAccount(batch + [t], a)) {
      OfAccountSnoc(batch, t, a);
      assert DrewFrom(ItemsOf(q, a), ItemsOf(now, a), OfAccount(batch, a));
      if a == t.account {
        TakeOne(ItemsOf(q, a), ItemsOf(now, a), OfAccount(batch, a), t);
        TakeHead(ItemsOf(now, a), OfAccount(batch, a), t);
      } else {
        assert OfAccount(batch, a) + [] == OfAccount(batch, a) && ItemsOf(now', a) == ItemsOf(now, a);
      }
    }
  }

  /** What was drawn from a run of nonces is the run of consecutive nonces that starts at its head. */
  lemma {:induction false} DrawnIsRun(was: map<nat, Tx>, now: map<nat, Tx>, part: seq<Tx>, head: Tx, i: nat)
    requires DrewFrom(was, now, part) && Gapless(was) && IsHead(was, head) && i < |part|
    requires forall n :: n in was ==> was[n].nonce == n
    ensures part[i].nonce == head.nonce + i
  {
    var n: nat, m: nat := head.nonce, part[i].nonce;
    if i == 0 {
      assert n !in now;
      var j :| 0 <= j < |part| && part[j] == was[n];
    } else {
      DrawnIsRun(was, now, part, head, i - 1);
      var k: nat := head.nonce + i;
      assert n <= k <= m && m in was;
      assert k in was && k !in now;
      var j :| 0 <= j < |part| && part[j] == was[k];
    }
  }

  /** No account's entry was in the batch at or after position i. */
  ghost predicate Waiting(batch: seq<Tx>, i: nat, upto: nat, a: Address)
    requires upto <= |batch|
  {
    forall k :: i <= k < upto ==> batch[k].account != a
  }

  /** Whatever entered the batch was not pricier than an entry it could have preceded: one taken
      while it was already its account's head. */
  ghost predicate Greedy(batch: seq<Tx>) {
    forall i, j :: 0 <= i < j < |batch| && Waiting(batch, i, j, batch[j].account) ==>
      && batch[j].gasPrice <= batch[i].gasPrice
      && (batch[j].gasPrice == batch[i].gasPrice ==> batch[i].timestamp <= batch[j].timestamp)
  }

  /** The same for the heads that are still waiting. */
  ghost predicate GreedyHeads(batch: seq<Tx>, dirty: map<Address, Tx>) {
    forall i, a :: 0 <= i < |batch| && a in dirty && Waiting(batch, i, |batch|, a) ==> Outranks(batch[i], dirty[a])
  }

  lemma GreedyNext(batch: seq<Tx>, dirty: map<Address, Tx>, t: Tx, dirty': map<Address, Tx>)
    requires Greedy(batch) && GreedyHeads(batch, dirty) && Get(dirty, t.account) == Some(t)
    requires forall a :: a in dirty ==> Outranks(t, dirty[a])
    requires forall a :: a != t.account ==> Get(dirty', a) == Get(dirty, a)
    ensures Greedy(batch + [t]) && GreedyHeads(batch + [t], dirty')
  {
    var next := batch + [t];
    forall i, j | 0 <= i < j < |next| && Waiting(next, i, j, next[j].account) ensures Outranks(next[i], next[j]) {
      if j < |batch| {
        assert Waiting(batch, i, j, batch[j].account) by {
          assert forall k :: i <= k < j ==> batch[k] == next[k];
        }
      } else {
        assert Waiting(batch, i, |batch|, t.account) by {
          assert forall k :: i <= k < j ==> batch[k] == next[k];
        }
      }
    }
    forall i, a | 0 <= i < |next| && a in dirty' && Waiting(next, i, |next|, a) ensures Outranks(next[i], dirty'[a]) {
      assert next[|batch|].account != a;
      assert Get(dirty', a) == Get(dirty, a);
      if i < |batch| {
        assert Waiting(batch, i, |batch|, a) by {
          assert forall k :: i <= k < |batch| ==> batch[k] == next[k];
        }
      }
    }
  }

  lemma GreedyFewer(batch: seq<Tx>, dirty: map<Address, Tx>, a: Address)
    requires GreedyHeads(batch, dirty)
    ensures GreedyHeads(batch, dirty - {a})
  {
  }

  /** Each recorded account is stuck at an invalid head. */
  ghost predicate Stuck(q: Queues, invalid: map<Address, Tx>, valid: Tx -> bool) {
    forall a :: a in invalid ==> IsHead(ItemsOf(q, a), invalid[a]) && !valid(invalid[a])
  }

  /** What is left of an account lies behind a gap that follows its last transaction in the batch. */
  ghost predicate CutOff(was: map<nat, Tx>, now: map<nat, Tx>, part: seq<Tx>) {
    now != map[] && part != [] && part[|part| - 1].nonce + 1 !in was
  }

  lemma DrawnNonce(was: map<nat, Tx>, now: map<nat, Tx>, part: seq<Tx>, k: nat)
    requires Took(was, now, part) && (forall n :: n in was ==> was[n].nonce == n) && k in was && k !in now
    ensures exists i :: 0 <= i < |part| && part[i].nonce == k
  {
    assert was[k] in part;
    var i :| 0 <= i < |part| && part[i] == was[k];
    assert part[i].nonce == k;
  }

  lemma RunIsNotCutOff(was: map<nat, Tx>, now: map<nat, Tx>, part: seq<Tx>)
    requires Gapless(was) && DrewFrom(was, now, part) && forall n :: n in was ==> was[n].nonce == n
    ensures Gapless(now) && !CutOff(was, now, part)
  {
    forall x, y, k: nat | x in now && y in now && x <= k <= y ensures k in now {
      assert k in was;
      if k !in now {
        DrawnNonce(was, now, part, k);
      }
    }
    if now != map[] && part != [] {
      var m :| m in now;
      var n: nat, k: nat := part[|part| - 1].nonce, part[|part| - 1].nonce + 1;
      assert n in was && m in was && n <= k <= m;
    }
  }

  /** A popped head whose successor is missing cuts its account off. */
  lemma StrandedIsCutOff(was: map<nat, Tx>, next: map<nat, Tx>, part: seq<Tx>, t: Tx)
    requires DrewFrom(was, next, part + [t]) && Stranded(t, next) != {} && forall n :: n in was ==> was[n].nonce == n
    ensures CutOff(was, next, part + [t])
  {
    var all := part + [t];
    assert all[|part|] == t && forall i :: 0 <= i < |all| ==> all[i].nonce <= t.nonce;
    forall k: nat | k in was && k !in next ensures k <= t.nonce {
      DrawnNonce(was, next, all, k);
    }
  }

  /** With no head left in the price heap, what remains belongs to suspended accounts. */
  lemma NothingLeft(priced: seq<Tx>, q: Queues, dirty: map<Address, Tx>, s: set<Address>, size: nat)
    requires priced == [] && Mirrors(multiset(priced), dirty) && Filed(dirty) && Inv(q, dirty, s, size)
    ensures forall a :: ItemsOf(q, a) != map[] ==> a in s
  {
    forall a | a in dirty ensures false {
      Mirrored(priced, dirty, dirty[a]);
    }
    forall a | ItemsOf(q, a) != map[] ensures a in s {
      assert HeadAt(q, dirty, s, a);
    }
  }

  /** What holds while the batch is built from the queues and suspended accounts it started with. */
  ghost predicate Building(was: Queues, s0: set<Address>, now: Queues, dirty: map<Address, Tx>, s: set<Address>,
                           batch: seq<Tx>, invalid: map<Address, Tx>, valid: Tx -> bool) {
    && Drew(was, now, batch) && Greedy(batch) && GreedyHeads(batch, dirty)
    && Stuck(now, invalid, valid) && (forall t :: t in batch ==> valid(t))
    && Aside(was, s0, now, s, batch, invalid)
  }

  /** The accounts kept out of the heap are those that were, those set aside, and those cut off. */
  ghost predicate Aside(was: Queues, s0: set<Address>, now: Queues, s: set<Address>, batch: seq<Tx>,
                        invalid: map<Address, Tx>) {
    && s0 <= s && invalid.Keys <= s
    && forall a :: a in s ==> a in s0 || a in invalid || CutOff(ItemsOf(was, a), ItemsOf(now, a), OfAccount(batch, a))
  }

  lemma BuildingStarts(was: Queues, s0: set<Address>, dirty: map<Address, Tx>, valid: Tx -> bool)
    ensures Building(was, s0, was, dirty, s0, [], map[], valid)
  {
    DrewNothing(was);
  }

  ghost predicate Keyed(q: Queues) {
    forall a, n :: n in ItemsOf(q, a) ==> ItemsOf(q, a)[n].nonce == n && ItemsOf(q, a)[n].account == a
  }

  lemma InvKeyed(q: Queues, dirty: map<Address, Tx>, s: set<Address>, size: nat)
    requires Inv(q, dirty, s, size)
    ensures Keyed(q)
  {
  }

  lemma AsideTake(was: Queues, s0: set<Address>, now: Queues, s: set<Address>, batch: seq<Tx>,
                  invalid: map<Address, Tx>,
                  t: Tx, next: Queue)
    requires Aside(was, s0, now, s, batch, invalid) && t.account !in s && Keyed(was)
    requires Drew(was, now[t.account := next], batch + [t])
    ensures Aside(was, s0, now[t.account := next], s + Stranded(t, next.items), batch + [t], invalid)
  {
    hide OfAccount, DrewFrom, CutOff;
    var now' := now[t.account := next];
    forall a | a in s + Stranded(t, next.items)
      ensures a in s0 || a in invalid || CutOff(ItemsOf(was, a), ItemsOf(now', a), OfAccount(batch + [t], a))
    {
      OfAccountSnoc(batch, t, a);
      if a == t.account {
        assert DrewFrom(ItemsOf(was, a), ItemsOf(now', a), OfAccount(batch + [t], a));
        StrandedIsCutOff(ItemsOf(was, a), next.items, OfAccount(batch, a), t);
      } else {
        assert ItemsOf(now', a) == ItemsOf(now, a) && OfAccount(batch, a) + [] == OfAccount(batch, a);
      }
    }
  }

  lemma TakeStep(was: Queues, s0: set<Address>, now: Queues, dirty: map<Address, Tx>, s: set<Address>, batch: seq<Tx>,
                 invalid: map<Address, Tx>, valid: Tx -> bool, t: Tx, next: Queue)
    requires Building(was, s0, now, dirty, s, batch, invalid, valid) && Keyed(was) && valid(t) && t.account !in s
    requires Get(dirty, t.account) == Some(t) && IsHead(ItemsOf(now, t.account), t)
    requires forall a :: a in dirty ==> Outranks(t, dirty[a])
    requires next.items == ItemsOf(now, t.account) - {t.nonce}
    ensures Building(was, s0, now[t.account := next], Shifted(dirty, t, next.items), s + Stranded(t, next.items),
                     batch + [t], invalid, valid)
  {
    hide Drew, Greedy, GreedyHeads, Keyed, Stranded;
    DrawHead(was, now, batch, t, next);
    GreedyNext(batch, dirty, t, Shifted(dirty, t, next.items));
    AsideTake(was, s0, now, s, batch, invalid, t, next);
  }

  lemma AsideStep(was: Queues, s0: set<Address>, now: Queues, dirty: map<Address, Tx>, s: set<Address>, batch: seq<Tx>,
                  invalid: map<Address, Tx>, valid: Tx -> bool, t: Tx)
    requires Building(was, s0, now, dirty, s, batch, invalid, valid) && !valid(t) && IsHead(ItemsOf(now, t.account), t)
    ensures Building(was, s0, now, dirty - {t.account}, s + {t.account}, batch, invalid[t.account := t], valid)
  {
    hide Drew, Greedy, GreedyHeads, IsHead, CutOff, OfAccount;
    GreedyFewer(batch, dirty, t.account);
  }

  /** One round: set an invalid head aside, or take a valid one. An account set aside is out of the
      price heap, so the source's test that it was not set aside before always succeeds. */
  method Step(p: PriorityQueue, valid: Tx -> bool, batch: seq<Tx>, invalid: map<Address, Tx>, ghost was: Queues,
              ghost s0: set<Address>)
    returns (batch': seq<Tx>, invalid': map<Address, Tx>, panicked: bool)
    requires p.Valid() && p.txsByPrice.priced != [] && Keyed(was)
    requires Building(was, s0, p.model, p.txsByPrice.dirtyAccounts, p.suspended, batch, invalid, valid)
    modifies p`model, p`nonBatchSize, p`suspended, p.txsByPrice, p.accountsM.Values
    ensures panicked ==> var t := old(p.txsByPrice.priced[0]);
                         t.nonce == MAX_UINT64 - 1 && t.nonce in ItemsOf(old(p.model), t.account)
    ensures !panicked ==> p.Valid() && |batch'| <= |batch| + 1
    ensures !panicked ==> Building(was, s0, p.model, p.txsByPrice.dirtyAccounts, p.suspended, batch', invalid', valid)
    ensures !panicked ==> p.nonBatchSize < old(p.nonBatchSize)
                          || (p.nonBatchSize == old(p.nonBatchSize)
                              && |p.txsByPrice.priced| < |old(p.txsByPrice.priced)|)
  {
    hide Inv, Building, IsHead, Shifted, Stranded, Keyed, PriceQueue.Valid, PriorityQueue.Linked;
    batch', invalid', panicked := batch, invalid, false;
    ghost var now, dirty, s := p.model, p.txsByPrice.dirtyAccounts, p.suspended;
    var top := p.txsByPrice.priced[0];
    if !valid(top) {
      var tx := p.DropTop();
      invalid' := invalid[tx.account := tx];
      AsideStep(was, s0, now, dirty, s, batch, invalid, valid, tx);
      return;
    }
    var r := p.Pop();
    HeadIsLowest(ItemsOf(now, top.account), top);
    if r.Panicked? {
      panicked := true;
      return;
    }
    batch' := batch + [r.tx];
    TakeStep(was, s0, now, dirty, s, batch, invalid, valid, top, p.QueueOf(top.account));
  }

  /** Build a batch of up to size transactions. Each account contributes its lowest queued nonces in
      order; at every point the best-priced head is taken; and a batch below the size leaves only
      accounts whose head is invalid or lies behind a gap, or that were kept out before. From runs of
      nonces it leaves runs, and no account behind a gap. */
  method PopExecutableTxsByPrice(p: PriorityQueue, size: nat, valid: Tx -> bool)
    returns (batch: seq<Tx>, invalid: map<Address, Tx>, panicked: bool)
    requires p.Valid()
    modifies p`model, p`nonBatchSize, p`suspended, p.txsByPrice, p.accountsM.Values
    ensures panicked ==> exists a :: MAX_UINT64 - 1 in ItemsOf(old(p.model), a)
    ensures !panicked ==> p.Valid() && |batch| <= size && Drew(old(p.model), p.model, batch) && Greedy(batch)
    ensures !panicked ==> (forall t :: t in batch ==> valid(t)) && Stuck(p.model, invalid, valid)
    ensures !panicked ==> Aside(old(p.model), old(p.suspended), p.model, p.suspended, batch, invalid)
    ensures !panicked && |batch| < size ==> forall a :: ItemsOf(p.model, a) != map[] ==> a in p.suspended
    ensures !panicked && AllGapless(old(p.model)) ==>
            AllGapless(p.model) && p.suspended == old(p.suspended) + invalid.Keys
  {
    hide Inv, Building, Aside, IsHead, AllGapless, Keyed, PriorityQueue.Linked;
    batch, invalid, panicked := [], map[], false;
    InvKeyed(p.model, p.txsByPrice.dirtyAccounts, p.suspended, p.nonBatchSize);
    BuildingStarts(p.model, p.suspended, p.txsByPrice.dirtyAccounts, valid);
    while |p.txsByPrice.priced| > 0 && |batch| < size
      invariant !panicked && p.Valid() && |batch| <= size
      invariant Building(old(p.model), old(p.suspended), p.model, p.txsByPrice.dirtyAccounts, p.suspended, batch,
          invalid, valid)
      decreases p.nonBatchSize, |p.txsByPrice.priced|
    {
      BuildingMeans(old(p.model), old(p.suspended), p.model, p.txsByPrice.dirtyAccounts, p.suspended, batch, invalid,
          valid);
      ghost var top, now := p.txsByPrice.priced[0], p.model;
      batch, invalid, panicked := Step(p, valid, batch, invalid, old(p.model), old(p.suspended));
      if panicked {
        assert top.nonce in ItemsOf(now, top.account);
        return;
      }
    }
    BuildingMeans(old(p.model), old(p.suspended), p.model, p.txsByPrice.dirtyAccounts, p.suspended, batch, invalid,
        valid);
    if |p.txsByPrice.priced| == 0 {
      NothingLeft(p.txsByPrice.priced, p.model, p.txsByPrice.dirtyAccounts, p.suspended, p.nonBatchSize);
    }
    if AllGapless(old(p.model)) {
      RunsStayRuns(old(p.model), old(p.suspended), p.model, p.suspended, batch, invalid);
    }
  }

  lemma BuildingMeans(was: Queues, s0: set<Address>, now: Queues, dirty: map<Address, Tx>, s: set<Address>,
                      batch: seq<Tx>,
                      invalid: map<Address, Tx>, valid: Tx -> bool)
    requires Building(was, s0, now, dirty, s, batch, invalid, valid)
    ensures Drew(was, now, batch) && Greedy(batch) && Stuck(now, invalid, valid)
            && Aside(was, s0, now, s, batch, invalid)
    ensures forall t :: t in batch ==> valid(t)
    ensures forall a, n :: n in ItemsOf(now, a) ==> n in ItemsOf(was, a)
  {
    forall a, n | n in ItemsOf(now, a) ensures n in ItemsOf(was, a) {
      assert DrewFrom(ItemsOf(was, a), ItemsOf(now, a), OfAccount(batch, a));
    }
  }

  lemma RunsStayRuns(was: Queues, s0: set<Address>, now: Queues, s: set<Address>, batch: seq<Tx>,
                     invalid: map<Address, Tx>)
    requires AllGapless(was) && Keyed(was) && Drew(was, now, batch) && Aside(was, s0, now, s, batch, invalid)
    ensures AllGapless(now) && s == s0 + invalid.Keys
  {
    hide Gapless, CutOff, DrewFrom, OfAccount;
    forall a ensures Gapless(ItemsOf(now, a)) && !CutOff(ItemsOf(was, a), ItemsOf(now, a), OfAccount(batch, a)) {
      assert Gapless(ItemsOf(was, a)) && DrewFrom(ItemsOf(was, a), ItemsOf(now, a), OfAccount(batch, a));
      RunIsNotCutOff(ItemsOf(was, a), ItemsOf(now, a), OfAccount(batch, a));
    }
  }

  // ---------------------------------------------------------------- putting a batch back

  /** The queues hold what they held, except the given transactions. */
  ghost predicate Lacks(was: Queues, now: Queues, missing: set<Tx>) {
    && (forall t :: t in missing ==> Get(ItemsOf(was, t.account), t.nonce) == Some(t))
    && forall a, n :: Get(ItemsOf(now, a), n) ==
                      if n in ItemsOf(was, a) && ItemsOf(was, a)[n] in missing then None else Get(ItemsOf(was, a), n)
  }

  /** After a batch was drawn, the queues lack exactly its transactions. */
  lemma DrewLacks(was: Queues, now: Queues, batch: seq<Tx>)
    requires Drew(was, now, batch) && Keyed(was)
    ensures Lacks(was, now, set t | t in batch)
  {
    hide OfAccount;
    var missing := set t | t in batch;
    forall t | t in missing ensures Get(ItemsOf(was, t.account), t.nonce) == Some(t) {
      OfAccountHas(batch, t.account, t);
      assert DrewFrom(ItemsOf(was, t.account), ItemsOf(now, t.account), OfAccount(batch, t.account));
    }
    forall a, n ensures Get(ItemsOf(now, a), n) ==
                        if n in ItemsOf(was, a) && ItemsOf(was, a)[n] in missing then None else Get(ItemsOf(was, a), n)
    {
      assert DrewFrom(ItemsOf(was, a), ItemsOf(now, a), OfAccount(batch, a));
      if n in ItemsOf(was, a) {
        OfAccountHas(batch, a, ItemsOf(was, a)[n]);
      }
    }
  }

  lemma {:induction false} OfAccountHas(batch: seq<Tx>, a: Address, t: Tx)
    ensures t in OfAccount(batch, a) <==> t in batch && t.account == a
    decreases |batch|
  {
    if batch != [] {
      var front, last := batch[..|batch| - 1], batch[|batch| - 1];
      OfAccountHas(front, a, t);
      assert batch == front + [last];
    }
  }

  lemma PutBackOne(was: Queues, now: Queues, missing: set<Tx>, t: Tx, next: Queues)
    requires Lacks(was, now, missing) && t in missing && Keyed(was)
    requires forall a :: a != t.account ==> ItemsOf(next, a) == ItemsOf(now, a)
    requires ItemsOf(next, t.account) == ItemsOf(now, t.account)[t.nonce := t]
    ensures Lacks(was, next, missing - {t})
  {
    forall a, n ensures Get(ItemsOf(next, a), n) ==
                        if n in ItemsOf(was, a) && ItemsOf(was, a)[n] in missing - {t} then None
                            else Get(ItemsOf(was, a), n)
    {
      assert Get(ItemsOf(now, a), n) ==
             if n in ItemsOf(was, a) && ItemsOf(was, a)[n] in missing then None else Get(ItemsOf(was, a), n);
    }
  }

  lemma NothingMissing(was: Queues, now: Queues)
    requires Lacks(was, now, {})
    ensures forall a :: ItemsOf(now, a) == ItemsOf(was, a)
  {
    forall a ensures ItemsOf(now, a) == ItemsOf(was, a) {
      SameMap(ItemsOf(now, a), ItemsOf(was, a));
    }
  }

  /** Put the transactions of a batch back, in any order. Every account then has queued exactly what
      it had before the batch, though its queue may have gaps on the way. */
  method PutBack(p: PriorityQueue, batch: set<Tx>, ghost was: Queues)
    requires p.Valid() && Keyed(was) && Lacks(was, p.model, batch)
             && forall t :: t in batch ==> t.account !in p.suspended
    modifies p, p.txsByPrice, p.accountsM.Values
    ensures p.Valid() && p.suspended == old(p.suspended)
    ensures forall a :: ItemsOf(p.model, a) == ItemsOf(was, a)
    ensures AllGapless(was) ==> AllGapless(p.model)
    ensures forall a :: a in p.accountsM ==>
              (a in old(p.accountsM) && p.accountsM[a] == old(p.accountsM)[a]) || fresh(p.accountsM[a])
  {
    hide Lacks, Keyed, IsHead, Gapless, PriorityQueue.Valid;
    var todo := batch;
    while todo != {}
      invariant p.Valid() && p.suspended == old(p.suspended) && todo <= batch && Lacks(was, p.model, todo)
      invariant forall a :: a in p.accountsM ==>
                  (a in old(p.accountsM) && p.accountsM[a] == old(p.accountsM)[a]) || fresh(p.accountsM[a])
      decreases |todo|
    {
      var tx :| tx in todo;
      ghost var now := p.model;
      MissingIsFree(was, now, todo, tx);
      p.PushBack(tx);
      PutBackOne(was, now, todo, tx, p.model);
      todo := todo - {tx};
    }
    NothingMissing(was, p.model);
  }

  lemma MissingIsFree(was: Queues, now: Queues, missing: set<Tx>, t: Tx)
    requires Lacks(was, now, missing) && t in missing
    ensures t.nonce !in ItemsOf(now, t.account)
  {
    assert Get(ItemsOf(now, t.account), t.nonce) == None;
  }
}
