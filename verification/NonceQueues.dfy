/** The queue of one account's transactions, a map by nonce beside a heap of the nonces. */
module NonceQueues {
  import opened Types
  import opened Heaps

  /** A pooled transaction. id tells apart objects with equal contents. */
  datatype Tx = Tx(id: nat, account: Address, nonce: uint64, gasPrice: int, timestamp: int)

  predicate Lower(a: nat, b: nat) {
    a < b
  }

  lemma LowerIsOrdered()
    ensures Ordered(Lower)
  {
  }

  /** What a queue holds: exactly one heap entry per item, each filed under its own nonce. */
  datatype Queue = Queue(items: map<nat, Tx>, heap: seq<nat>, lastNonce: nat) {
    ghost predicate Ok(account: Address) {
      && IsHeap(heap, Lower)
      && multiset(heap) == multiset(items.Keys)
      && forall n :: n in items ==> items[n].nonce == n && items[n].account == account
    }

    /** The lowest nonce, or the largest number when there is none. */
    function Top(): nat {
      if heap == [] then MAX_UINT64 else heap[0]
    }

    /** The last nonce after a transaction of the given nonce is pushed. */
    function LastAfter(nonce: nat): nat {
      if nonce !in items && lastNonce < nonce then nonce else lastNonce
    }

    /** What a push lets in: anything below the lowest nonce, zero, and the successor of the last. */
    predicate Accepts(nonce: nat) {
      nonce < Top() || nonce == 0 || nonce == (lastNonce + 1) % (MAX_UINT64 + 1)
    }
  }

  /** The last nonce never falls, and covers a nonce that is newly queued. */
  lemma LastIsHighest(q: Queue, n: nat)
    ensures q.LastAfter(n) >= q.lastNonce && (n !in q.items ==> q.LastAfter(n) >= n)
    ensures q.LastAfter(n) == q.lastNonce || (n !in q.items && q.LastAfter(n) == n)
  {
  }

  /** Nonces pushed one after the other are let in: after the successor of the last nonce, its own
      successor. */
  lemma SuccessorIsNext(q: Queue, n: nat, next: Queue)
    requires n == q.lastNonce + 1 < MAX_UINT64 && n !in q.items && next.lastNonce == q.LastAfter(n)
    ensures q.Accepts(n) && next.lastNonce == n && next.Accepts(n + 1)
  {
  }

  /** What is let in besides: below the lowest nonce always; from it on only zero and the successor. */
  lemma AcceptsMeans(q: Queue, a: Address, n: nat)
    requires q.Ok(a) && n <= MAX_UINT64
    ensures (forall m :: m in q.items ==> n < m) && n < MAX_UINT64 ==> q.Accepts(n)
    ensures (exists m :: m in q.items && m <= n) && q.Accepts(n) ==> n == 0 || n == (q.lastNonce + 1) % (MAX_UINT64 + 1)
  {
    HeapSize(q.heap, q.items.Keys);
    if q.heap != [] {
      TopIsHead(q, a);
    }
  }

  lemma InHeap(q: Queue, a: Address, n: nat)
    requires q.Ok(a)
    ensures n in q.heap <==> n in q.items
  {
    assert n in multiset(q.heap) <==> n in multiset(q.items.Keys);
  }

  lemma HeapSize(heap: seq<nat>, keys: set<nat>)
    requires multiset(heap) == multiset(keys)
    ensures |heap| == |keys|
  {
    assert |multiset(heap)| == |heap| && |multiset(keys)| == |keys|;
  }

  lemma OkIgnoresLast(q: Queue, a: Address, last: nat)
    requires q.Ok(a)
    ensures q.(lastNonce := last).Ok(a)
  {
  }

  lemma NoncesFit(q: Queue, a: Address)
    requires q.Ok(a)
    ensures forall n :: n in q.items ==> n <= MAX_UINT64 && q.items[n].nonce == n
  {
  }

  lemma AddKey(items: map<nat, Tx>, n: nat, tx: Tx)
    requires n !in items
    ensures multiset(items[n := tx].Keys) == multiset(items.Keys) + multiset{n}
  {
  }

  lemma DropKey(items: map<nat, Tx>, n: nat, rest: multiset<nat>)
    requires n in items && rest + multiset{n} == multiset(items.Keys)
    ensures rest == multiset((items - {n}).Keys)
  {
    assert rest == rest + multiset{n} - multiset{n};
  }

  /** t has the lowest nonce of the items. */
  ghost predicate IsHead(items: map<nat, Tx>, t: Tx) {
    t.nonce in items && items[t.nonce] == t && forall n :: n in items ==> t.nonce <= n
  }

  lemma HeadIsLowest(items: map<nat, Tx>, t: Tx)
    requires IsHead(items, t)
    ensures Get(items, t.nonce) == Some(t) && forall n :: n in items ==> t.nonce <= n
  {
  }

  lemma HeadIsUnique(items: map<nat, Tx>, t: Tx, u: Tx)
    requires IsHead(items, t) && IsHead(items, u)
    ensures t == u
  {
  }

  /** No nonce is missing between two queued ones. */
  ghost predicate Gapless(items: map<nat, Tx>) {
    forall n, m, k: nat :: n in items && m in items && n <= k <= m ==> k in items
  }

  lemma TopIsHead(q: Queue, a: Address)
    requires q.Ok(a) && q.heap != []
    ensures q.heap[0] in q.items && IsHead(q.items, q.items[q.heap[0]])
  {
    InHeap(q, a, q.heap[0]);
    LowerIsOrdered();
    forall n | n in q.items ensures q.heap[0] <= n {
      InHeap(q, a, n);
      var i :| 0 <= i < |q.heap| && q.heap[i] == n;
      TopIsLeast(q.heap, Lower, i);
    }
  }

  /** Taking transactions out of the items left now: each removed item once, and nothing else. */
  ghost predicate Took(was: map<nat, Tx>, now: map<nat, Tx>, taken: seq<Tx>) {
    && now.Keys <= was.Keys && (forall n :: n in now ==> now[n] == was[n])
    && (forall n :: n in was && n !in now ==> was[n] in taken)
    && (forall i :: 0 <= i < |taken| ==> Get(was, taken[i].nonce) == Some(taken[i]) && taken[i].nonce !in now)
    && (forall i, j :: 0 <= i < j < |taken| ==> taken[i].nonce != taken[j].nonce)
  }

  lemma TookNothing(items: map<nat, Tx>)
    ensures Took(items, items, []) && Rising([]) && Below([], items)
  {
  }

  lemma TakeOne(was: map<nat, Tx>, now: map<nat, Tx>, taken: seq<Tx>, t: Tx)
    requires Took(was, now, taken) && Get(now, t.nonce) == Some(t)
    ensures Took(was, now - {t.nonce}, taken + [t])
  {
    forall n | n in was && n !in now - {t.nonce} ensures was[n] in taken + [t] {
      if n in now { assert was[n] == (taken + [t])[|taken|]; }
    }
  }

  ghost predicate Rising(txs: seq<Tx>) {
    forall i, j :: 0 <= i < j < |txs| ==> txs[i].nonce < txs[j].nonce
  }

  ghost predicate Below(txs: seq<Tx>, items: map<nat, Tx>) {
    forall i, n :: 0 <= i < |txs| && n in items ==> txs[i].nonce < n
  }

  lemma TakeHead(items: map<nat, Tx>, taken: seq<Tx>, t: Tx)
    requires Rising(taken) && Below(taken, items) && IsHead(items, t)
    ensures Rising(taken + [t]) && Below(taken + [t], items - {t.nonce})
  {
  }

  lemma FewerItems(items: map<nat, Tx>, n: nat)
    requires n in items
    ensures |items - {n}| < |items|
  {
    assert (items - {n}).Keys == items.Keys - {n};
    assert |items - {n}| == |(items - {n}).Keys| && |items| == |items.Keys|;
  }

  class AccountQueue {
    ghost const account: Address
    var items: map<nat, Tx>
    var minNonceQueue: seq<nat>
    var lastNonce: nat

    ghost function Model(): Queue
      reads this
    {
      Queue(items, minNonceQueue, lastNonce)
    }

    constructor (latestNonce: nat, ghost account: Address)
      ensures this.account == account && Model() == Queue(map[], [], latestNonce) && Model().Ok(account)
    {
      this.account := account;
      items, minNonceQueue, lastNonce := map[], [], latestNonce;
    }

    method IsValidPush(nonce: nat) returns (ok: bool)
      ensures ok == Model().Accepts(nonce)
    {
      var lowest := PeekItem();
      if nonce < lowest {
        return true;
      }
      if nonce != 0 && nonce != (lastNonce + 1) % (MAX_UINT64 + 1) {
        return false;
      }
      return true;
    }

    method PeekItem() returns (nonce: nat)
      ensures nonce == Model().Top()
    {
      if |minNonceQueue| == 0 {
        return MAX_UINT64;
      }
      return minNonceQueue[0];
    }

    method Push(tx: Tx) returns (replaced: bool)
      requires Model().Ok(account) && tx.account == account
      modifies this
      ensures Model().Ok(account) && items == old(items)[tx.nonce := tx]
      ensures replaced == (tx.nonce in old(items))
      ensures lastNonce == old(Model()).LastAfter(tx.nonce)
    {
      var nonce: nat := tx.nonce;
      replaced := nonce in items;
      if replaced {
        assert items[tx.nonce := tx].Keys == items.Keys;
        items := items[tx.nonce := tx];
        return;
      }
      LowerIsOrdered();
      AddKey(items, nonce, tx);
      minNonceQueue := Heaps.Push<nat>(minNonceQueue, Lower, nonce);
      items := items[tx.nonce := tx];
      if lastNonce < tx.nonce {
        lastNonce := tx.nonce;
      }
    }

    method Peek() returns (tx: Option<Tx>)
      requires Model().Ok(account)
      ensures items == map[] ==> tx.None?
      ensures items != map[] ==> tx.Some? && IsHead(items, tx.value)
    {
      InHeap(Model(), account, Model().Top());
      if minNonceQueue == [] {
        HeapSize(minNonceQueue, items.Keys);
      } else {
        TopIsHead(Model(), account);
      }
      var lowest := PeekItem();
      tx := Get(items, lowest);
    }

    method Pop() returns (tx: Option<Tx>)
      requires Model().Ok(account)
      modifies this
      ensures Model().Ok(account) && lastNonce == old(lastNonce)
      ensures old(items) == map[] ==> tx.None? && items == map[]
      ensures old(items) != map[] ==> tx.Some? && IsHead(old(items), tx.value) && items == old(items) - {tx.value.nonce}
    {
      HeapSize(minNonceQueue, items.Keys);
      if minNonceQueue == [] {
        return None;
      }
      LowerIsOrdered();
      TopIsHead(Model(), account);
      var nonce;
      nonce, minNonceQueue := Heaps.Pop<nat>(minNonceQueue, Lower);
      tx := Some(items[nonce]);
      DropKey(items, nonce, multiset(minNonceQueue));
      items := items - {nonce};
    }
  
    /** Remove the nonces up to and including the given one, lowest first. */
    method Prune(nonce: nat) returns (pruned: seq<Tx>)
      requires Model().Ok(account)
      modifies this
      ensures Model().Ok(account) && lastNonce == old(lastNonce)
      ensures Took(old(items), items, pruned) && Rising(pruned)
      ensures forall n :: n in items <==> n in old(items) && (n > nonce || n == MAX_UINT64)
    {
      hide Took, Rising, Below, IsHead, Queue.Ok;
      pruned := [];
      TookNothing(items);
      while true
        invariant Model().Ok(account) && lastNonce == old(lastNonce)
        invariant Took(old(items), items, pruned) && Rising(pruned) && Below(pruned, items)
        invariant forall n :: n in items ==> n in old(items)
        invariant forall n :: n in old(items) && (n > nonce || n == MAX_UINT64) ==> n in items
        decreases |items|
      {
        ghost var was := items;
        var tx := Peek();
        if tx.Some? {
          HeadIsLowest(items, tx.value);
        }
        if tx.None? || tx.value.nonce == MAX_UINT64 || tx.value.nonce > nonce {
          break;
        }
        TakeOne(old(items), items, pruned, tx.value);
        TakeHead(items, pruned, tx.value);
        FewerItems(items, tx.value.nonce);
        ghost var head := tx.value;
        tx := Pop();
        HeadIsUnique(was, head, tx.value);
        pruned := pruned + [tx.value];
      }
      NoncesFit(Model(), account);
    }

    /** Remove the entry at a heap index, with its item. */
    method RemoveAt(i: nat, ghost bound: nat) returns (tx: Tx)
      requires Model().Ok(account) && i < |minNonceQueue|
      modifies this
      ensures Model().Ok(account) && lastNonce == old(lastNonce) && |minNonceQueue| == |old(minNonceQueue)| - 1
      ensures tx.nonce == old(minNonceQueue)[i] && Get(old(items), tx.nonce) == Some(tx)
              && items == old(items) - {tx.nonce}
      ensures AllBefore(old(minNonceQueue), i, Lower, bound) ==> AllBefore(minNonceQueue, i, Lower, bound)
    {
      LowerIsOrdered();
      var nonce := minNonceQueue[i];
      InHeap(Model(), account, nonce);
      minNonceQueue := Heaps.Remove<nat>(minNonceQueue, Lower, i, bound);
      DropKey(items, nonce, multiset(minNonceQueue));
      tx := items[nonce];
      items := items - {nonce};
    }

    /** Scan the heap array and remove every nonce from the given one on. */
    method RemoveBehind(nonce: nat) returns (removed: seq<Tx>, any: bool)
      requires Model().Ok(account)
      modifies this
      ensures Model().Ok(account) && lastNonce == if nonce == 0 then 0 else nonce - 1
      ensures Took(old(items), items, removed)
      ensures forall n :: n in items <==> n in old(items) && n < nonce
      ensures any == (removed != [])
    {
      hide Took, Queue.Ok;
      removed := [];
      TookNothing(items);
      var i := 0;
      while i < |minNonceQueue|
        invariant 0 <= i <= |minNonceQueue|
        invariant Model().Ok(account)
        invariant AllBefore(minNonceQueue, i, Lower, nonce)
        invariant Took(old(items), items, removed)
        invariant forall n :: n in items ==> n in old(items)
        invariant forall n :: n in old(items) && n < nonce ==> n in items
        decreases |minNonceQueue| - i
      {
        var currentNonce := minNonceQueue[i];
        if currentNonce >= nonce {
          ghost var now := items;
          var tx := RemoveAt(i, nonce);
          TakeOne(old(items), now, removed, tx);
          removed := removed + [tx];
        } else {
          i := i + 1;
        }
      }
      forall n | n in items ensures n < nonce {
        InHeap(Model(), account, n);
      }
      OkIgnoresLast(Model(), account, if nonce == 0 then 0 else nonce - 1);
      lastNonce := if nonce == 0 then 0 else nonce - 1;
      any := |removed| > 0;
    }
  }
}
