/** Whole runs of the price scheduler: which sequences of calls keep it in order. */
module SchedulerRuns {
  import opened Types
  import opened NonceQueues
  import opened PriceQueues
  import opened PriorityQueues

  datatype Call =
    | Push(tx: Tx)
    | PushBack(tx: Tx)
    | Pop
    | Replace(tx: Tx)
    | RemoveBehind(tx: Tx)
    | RemoveBefore(account: Address, nonce: nat)
    | UpdateNonce(account: Address, nonce: nat)

  ghost predicate OnlyAt(q: Queues, q': Queues, a: Address) {
    forall b :: b != a ==> ItemsOf(q', b) == ItemsOf(q, b)
  }

  /** Whether a push is let in. */
  ghost predicate LetIn(getNonceFn: Address -> nat, q: Queues, tx: Tx) {
    (if tx.account in q then q[tx.account] else Queue(map[], [], getNonceFn(tx.account))).Accepts(tx.nonce)
  }

  ghost predicate Files(q: Queues, q': Queues, tx: Tx, filed: bool) {
    && OnlyAt(q, q', tx.account)
    && ItemsOf(q', tx.account) == if filed then ItemsOf(q, tx.account)[tx.nonce := tx] else ItemsOf(q, tx.account)
  }

  /** What remains of an account's items are those of the nonces from low to below high. */
  ghost predicate Cut(q: Queues, q': Queues, a: Address, low: nat, high: nat) {
    && OnlyAt(q, q', a)
    && forall n :: n in ItemsOf(q', a) <==> n in ItemsOf(q, a) && low <= n < high
  }

  /** The lowest nonce that pruning up to the given one spares. The largest number is never pruned. */
  function Above(nonce: nat): nat {
    if nonce < MAX_UINT64 then nonce + 1 else MAX_UINT64
  }

  ghost predicate TookHead(q: Queues, q': Queues, t: Tx) {
    IsHead(ItemsOf(q, t.account), t) && OnlyAt(q, q', t.account)
        && ItemsOf(q', t.account) == ItemsOf(q, t.account) - {t.nonce}
  }

  /** What a call does to the queued items. */
  ghost predicate Does(getNonceFn: Address -> nat, q: Queues, c: Call, q': Queues) {
    match c
    case Push(tx) => Files(q, q', tx, LetIn(getNonceFn, q, tx))
    case PushBack(tx) => Files(q, q', tx, tx.nonce !in ItemsOf(q, tx.account))
    case Pop => q' == q || exists t :: TookHead(q, q', t)
    case Replace(tx) => Files(q, q', tx, tx.account in q)
    case RemoveBehind(tx) => Cut(q, q', tx.account, 0, tx.nonce)
    case RemoveBefore(a, nonce) => Cut(q, q', a, Above(nonce), MAX_UINT64 + 1)
    case UpdateNonce(a, _) => forall b :: ItemsOf(q', b) == ItemsOf(q, b)
  }

  /** What the call files adjoins what its account has queued. */
  ghost predicate Fits(getNonceFn: Address -> nat, q: Queues, c: Call) {
    match c
    case Push(tx) => LetIn(getNonceFn, q, tx) ==> Adjoins(ItemsOf(q, tx.account), tx.nonce)
    case PushBack(tx) => Adjoins(ItemsOf(q, tx.account), tx.nonce)
    case Replace(tx) => tx.account in q ==> Adjoins(ItemsOf(q, tx.account), tx.nonce)
    case _ => true
  }

  lemma OneGapless(q: Queues, q': Queues, a: Address)
    requires AllGapless(q) && OnlyAt(q, q', a)
    ensures AllGapless(q') <==> Gapless(ItemsOf(q', a))
  {
    hide Gapless;
    if Gapless(ItemsOf(q', a)) {
      forall b ensures Gapless(ItemsOf(q', b)) {
        assert Gapless(ItemsOf(q, b));
      }
    }
  }

  lemma FiledGaplessIff(q: Queues, q': Queues, tx: Tx, filed: bool)
    requires AllGapless(q) && Files(q, q', tx, filed)
    ensures AllGapless(q') <==> (filed ==> Adjoins(ItemsOf(q, tx.account), tx.nonce))
  {
    hide Gapless, Adjoins;
    assert Gapless(ItemsOf(q, tx.account));
    OneGapless(q, q', tx.account);
    PutKeepsRunIff(ItemsOf(q, tx.account), tx);
  }

  lemma CutGapless(q: Queues, q': Queues, a: Address, low: nat, high: nat)
    requires AllGapless(q) && Cut(q, q', a, low, high)
    ensures AllGapless(q')
  {
    hide Gapless;
    assert Gapless(ItemsOf(q, a));
    CutKeepsRun(ItemsOf(q, a), ItemsOf(q', a), low, high);
    OneGapless(q, q', a);
  }

  /** After any call the queues are runs of nonces exactly when what it filed adjoins what was there.
      Only filing can break a run: no way of taking transactions out does. */
  lemma CallGaplessIff(getNonceFn: Address -> nat, q: Queues, c: Call, q': Queues)
    requires AllGapless(q) && Does(getNonceFn, q, c, q')
    ensures AllGapless(q') <==> Fits(getNonceFn, q, c)
  {
    hide Gapless, AllGapless, Adjoins, Files, Cut, LetIn;
    match c
    case Push(tx) => FiledGaplessIff(q, q', tx, LetIn(getNonceFn, q, tx));
    case PushBack(tx) =>
      FiledGaplessIff(q, q', tx, tx.nonce !in ItemsOf(q, tx.account));
      QueuedAdjoins(ItemsOf(q, tx.account), tx.nonce);
    case Replace(tx) => FiledGaplessIff(q, q', tx, tx.account in q);
    case Pop =>
      if q' != q {
        var t :| TookHead(q, q', t);
        TookGapless(q, q', t);
      }
    case RemoveBehind(tx) => CutGapless(q, q', tx.account, 0, tx.nonce);
    case RemoveBefore(a, nonce) => CutGapless(q, q', a, Above(nonce), MAX_UINT64 + 1);
    case UpdateNonce(_, _) => SameGapless(q, q');
  }

  lemma QueuedAdjoins(items: map<nat, Tx>, n: nat)
    ensures n in items ==> Adjoins(items, n)
  {
  }

  lemma SameGapless(q: Queues, q': Queues)
    requires AllGapless(q) && forall b :: ItemsOf(q', b) == ItemsOf(q, b)
    ensures AllGapless(q')
  {
    hide Gapless;
    forall b ensures Gapless(ItemsOf(q', b)) {
      assert Gapless(ItemsOf(q, b));
    }
  }

  lemma TookGapless(q: Queues, q': Queues, t: Tx)
    requires AllGapless(q) && TookHead(q, q', t)
    ensures AllGapless(q')
  {
    hide Gapless, IsHead;
    assert Gapless(ItemsOf(q, t.account));
    GaplessTail(ItemsOf(q, t.account), t);
    OneGapless(q, q', t.account);
  }

  ghost predicate Run(getNonceFn: Address -> nat, trace: seq<Queues>, calls: seq<Call>) {
    && |trace| == |calls| + 1 && trace[0] == map[]
    && forall i :: 0 <= i < |calls| ==> Does(getNonceFn, trace[i], calls[i], trace[i + 1])
  }

  /** Over any run from a new scheduler: all queues are runs of nonces at every point exactly when
      everything that was ever filed adjoined what was there. */
  lemma RunGaplessIff(getNonceFn: Address -> nat, trace: seq<Queues>, calls: seq<Call>)
    requires Run(getNonceFn, trace, calls)
    ensures (forall i :: 0 <= i < |trace| ==> AllGapless(trace[i]))
            <==> (forall i :: 0 <= i < |calls| ==> Fits(getNonceFn, trace[i], calls[i]))
  {
    hide AllGapless, Fits, Does;
    if forall i :: 0 <= i < |trace| ==> AllGapless(trace[i]) {
      forall i | 0 <= i < |calls| ensures Fits(getNonceFn, trace[i], calls[i]) {
        assert AllGapless(trace[i + 1]);
        CallGaplessIff(getNonceFn, trace[i], calls[i], trace[i + 1]);
      }
    }
    if forall i :: 0 <= i < |calls| ==> Fits(getNonceFn, trace[i], calls[i]) {
      forall i | 0 <= i < |trace| ensures AllGapless(trace[i]) {
        FitsUpTo(getNonceFn, trace, calls, i);
      }
    }
  }

  lemma {:induction false} FitsUpTo(getNonceFn: Address -> nat, trace: seq<Queues>, calls: seq<Call>, k: nat)
    requires Run(getNonceFn, trace, calls) && k <= |calls|
    requires forall i :: 0 <= i < k ==> Fits(getNonceFn, trace[i], calls[i])
    ensures AllGapless(trace[k])
  {
    hide Fits, Does;
    if k > 0 {
      FitsUpTo(getNonceFn, trace, calls, k - 1);
      CallGaplessIff(getNonceFn, trace[k - 1], calls[k - 1], trace[k]);
    }
  }

  // ---------------------------------------------------------------- the scheduler itself

  /** The call leaves heads, heap and size right and the queues runs of nonces. */
  ghost predicate Calm(getNonceFn: Address -> nat, q: Queues, c: Call) {
    && Fits(getNonceFn, q, c)
    && match c
       case PushBack(tx) => var items := ItemsOf(q, tx.account);
         tx.nonce in items && IsHead(items, items[tx.nonce]) ==> items[tx.nonce] == tx
       case Pop => forall a :: ItemsOf(q, a).Keys != {MAX_UINT64 - 1}
       case Replace(tx) => tx.account in q ==> tx.nonce in ItemsOf(q, tx.account)
       case RemoveBehind(tx) => CutsAtHead(ItemsOf(q, tx.account), tx)
       case _ => true
  }

  /** Every call of the sequence is calm when its turn comes, whatever the calls before it chose. */
  ghost predicate AllCalm(getNonceFn: Address -> nat, q: Queues, calls: seq<Call>)
    decreases |calls|
  {
    calls != [] ==>
      && Calm(getNonceFn, q, calls[0])
      && forall q' :: Does(getNonceFn, q, calls[0], q') ==> AllCalm(getNonceFn, q', calls[1..])
  }

  /** Make one calm call. */
  method Apply(p: PriorityQueue, c: Call)
    requires p.Valid() && p.suspended == {} && AllGapless(p.model) && Calm(p.getNonceFn, p.model, c)
    modifies p, p.txsByPrice, p.accountsM.Values
    ensures p.Valid() && p.suspended == {} && Does(p.getNonceFn, old(p.model), c, p.model)
    ensures forall a :: a in p.accountsM ==>
              (a in old(p.accountsM) && p.accountsM[a] == old(p.accountsM)[a]) || fresh(p.accountsM[a])
  {
    hide Inv, AllGapless, Calm, Does, PriceQueue.Valid, PriorityQueue.Linked;
    if c.Push? || c.PushBack? || c.Replace? {
      ApplyFiling(p, c);
    } else {
      ApplyTaking(p, c);
    }
  }

  method ApplyFiling(p: PriorityQueue, c: Call)
    requires p.Valid() && p.suspended == {} && Calm(p.getNonceFn, p.model, c) && (c.Push? || c.PushBack? || c.Replace?)
    modifies p, p.txsByPrice, p.accountsM.Values
    ensures p.Valid() && p.suspended == {} && Does(p.getNonceFn, old(p.model), c, p.model)
    ensures forall a :: a in p.accountsM ==>
              (a in old(p.accountsM) && p.accountsM[a] == old(p.accountsM)[a]) || fresh(p.accountsM[a])
  {
    hide Inv, IsHead, Adjoins, PriceQueue.Valid, PriorityQueue.Linked;
    match c
    case Push(tx) => p.Push(tx);
    case PushBack(tx) => p.PushBack(tx);
    case Replace(tx) => var head := p.ReplaceTx(tx);
  }

  method ApplyTaking(p: PriorityQueue, c: Call)
    requires p.Valid() && p.suspended == {} && AllGapless(p.model) && Calm(p.getNonceFn, p.model, c)
    requires !c.Push? && !c.PushBack? && !c.Replace?
    modifies p`model, p`nonBatchSize, p`suspended, p.txsByPrice, p.accountsM.Values
    ensures p.Valid() && p.suspended == {} && Does(p.getNonceFn, old(p.model), c, p.model)
  {
    hide Inv, IsHead, AllGapless, Took, PriceQueue.Valid, PriorityQueue.Linked;
    QueuedFit(p.model, p.txsByPrice.dirtyAccounts, p.suspended, p.nonBatchSize);
    match c
    case Pop => PopCalmly(p);
    case RemoveBehind(tx) => var removed := p.RemoveTxBehindNonce(tx);
    case RemoveBefore(a, nonce) => var removed := p.RemoveTxBeforeNonce(a, nonce);
    case UpdateNonce(a, nonce) => p.UpdateAccountNonce(a, nonce);
  }

  method PopCalmly(p: PriorityQueue)
    requires p.Valid() && p.suspended == {} && AllGapless(p.model)
    requires forall a :: ItemsOf(p.model, a).Keys != {MAX_UINT64 - 1}
    modifies p`model, p`nonBatchSize, p`suspended, p.txsByPrice, p.accountsM.Values
    ensures p.Valid() && p.suspended == {}
    ensures p.model == old(p.model) || exists t :: TookHead(old(p.model), p.model, t)
  {
    hide Inv, PriceQueue.Valid, PriorityQueue.Linked, Gapless, IsHead;
    if |p.txsByPrice.priced| == 0 {
      return;
    }
    ghost var q, t := p.model, p.txsByPrice.priced[0];
    var r := p.Pop();
    OnlyOne(ItemsOf(q, t.account), t);
    assert Gapless(ItemsOf(q, t.account));
    RunStrandsNone(ItemsOf(q, t.account), t);
    assert TookHead(q, p.model, t);
  }

  lemma OnlyOne(items: map<nat, Tx>, t: Tx)
    requires IsHead(items, t)
    ensures items - {t.nonce} == map[] ==> items.Keys == {t.nonce}
  {
    if items - {t.nonce} == map[] {
      forall n | n in items ensures n == t.nonce {
        assert n !in items - {t.nonce};
      }
    }
  }

  /** The queues go from the first state to the last by the calls, one after the other. */
  ghost predicate Traced(getNonceFn: Address -> nat, trace: seq<Queues>, calls: seq<Call>, from: Queues, to: Queues) {
    && |trace| == |calls| + 1 && trace[0] == from && trace[|calls|] == to
    && forall i :: 0 <= i < |calls| ==> Does(getNonceFn, trace[i], calls[i], trace[i + 1])
  }

  lemma TracedNext(getNonceFn: Address -> nat, trace: seq<Queues>, calls: seq<Call>, from: Queues, q: Queues, c: Call,
                   q': Queues)
    requires Traced(getNonceFn, trace, calls, from, q) && Does(getNonceFn, q, c, q')
    ensures Traced(getNonceFn, trace + [q'], calls + [c], from, q')
  {
    hide Does;
  }

  /** Make calm calls one after the other: the scheduler stays valid and its queues stay runs. */
  method ApplyAll(p: PriorityQueue, calls: seq<Call>) returns (ghost trace: seq<Queues>)
    requires p.Valid() && p.suspended == {} && AllGapless(p.model) && AllCalm(p.getNonceFn, p.model, calls)
    modifies p, p.txsByPrice, p.accountsM.Values
    ensures p.Valid() && p.suspended == {} && AllGapless(p.model)
    ensures Traced(p.getNonceFn, trace, calls, old(p.model), p.model)
  {
    hide Inv, AllGapless, Calm, Does, Traced, PriceQueue.Valid, PriorityQueue.Linked, PriorityQueue.Valid;
    trace := [p.model];
    TraceStarts(p.getNonceFn, p.model);
    for i := 0 to |calls|
      invariant p.Valid() && p.suspended == {} && AllGapless(p.model) && AllCalm(p.getNonceFn, p.model, calls[i..])
      invariant Traced(p.getNonceFn, trace, calls[..i], old(p.model), p.model)
      invariant forall a :: a in p.accountsM ==>
                  (a in old(p.accountsM) && p.accountsM[a] == old(p.accountsM)[a]) || fresh(p.accountsM[a])
    {
      ghost var q := p.model;
      assert calls[i..][0] == calls[i] && calls[i..][1..] == calls[i + 1..];
      CalmFits(p.getNonceFn, q, calls[i]);
      Apply(p, calls[i]);
      CallGaplessIff(p.getNonceFn, q, calls[i], p.model);
      TracedNext(p.getNonceFn, trace, calls[..i], old(p.model), q, calls[i], p.model);
      assert calls[..i] + [calls[i]] == calls[..i + 1];
      trace := trace + [p.model];
    }
    assert calls[..|calls|] == calls;
  }

  lemma TraceStarts(getNonceFn: Address -> nat, q: Queues)
    ensures Traced(getNonceFn, [q], [], q, q)
  {
  }

  lemma CalmFits(getNonceFn: Address -> nat, q: Queues, c: Call)
    requires Calm(getNonceFn, q, c)
    ensures Fits(getNonceFn, q, c)
  {
  }

  /** The same from a new scheduler. */
  method RunFromNew(getNonceFn: Address -> nat, calls: seq<Call>) returns (p: PriorityQueue, ghost trace: seq<Queues>)
    requires AllCalm(getNonceFn, map[], calls)
    ensures fresh(p) && p.Valid() && p.suspended == {} && AllGapless(p.model)
    ensures Run(getNonceFn, trace, calls) && trace[|calls|] == p.model
  {
    hide Does;
    p := new PriorityQueue(getNonceFn);
    trace := ApplyAll(p, calls);
  }

  /** Of two accounts the one with the higher price is served first, whichever was pushed first. */
  method DearerFirst(getNonceFn: Address -> nat, first: Tx, second: Tx) returns (r: PopResult)
    requires first.account != second.account && first.gasPrice != second.gasPrice
    requires first.nonce < MAX_UINT64 - 1 && second.nonce < MAX_UINT64 - 1
    ensures r == Popped(if first.gasPrice > second.gasPrice then first else second)
  {
    hide PriorityQueue.Valid, IsHead, Shifted, Stranded;
    var p := NewWith(getNonceFn, first);
    PushSecond(p, first, second);
    ghost var t, dirty := p.txsByPrice.priced[0], p.txsByPrice.dirtyAccounts;
    assert first.account in dirty && second.account in dirty;
    r := p.Pop();
    assert t.account in dirty && dirty[t.account] == t;
  }

  method PushSecond(p: PriorityQueue, first: Tx, second: Tx)
    requires p.Valid() && p.suspended == {} && first.account != second.account && second.nonce < MAX_UINT64
    requires p.model.Keys == {first.account} && p.model[first.account].items == map[first.nonce := first]
    modifies p, p.txsByPrice, p.accountsM.Values
    ensures p.Valid() && p.suspended == {} && p.txsByPrice.priced != []
    ensures p.txsByPrice.dirtyAccounts == map[first.account := first, second.account := second]
    ensures ItemsOf(p.model, first.account) == map[first.nonce := first]
    ensures ItemsOf(p.model, second.account) == map[second.nonce := second]
    ensures forall a :: a in p.accountsM ==>
              (a in old(p.accountsM) && p.accountsM[a] == old(p.accountsM)[a]) || fresh(p.accountsM[a])
  {
    hide Inv, Mirrors, PriorityQueue.Linked;
    p.Push(second);
    assert map[][second.nonce := second] == map[second.nonce := second];
    TwoHeads(p.model, p.txsByPrice.dirtyAccounts, p.nonBatchSize, first, second);
    Mirrored(p.txsByPrice.priced, p.txsByPrice.dirtyAccounts, first);
  }

  lemma TwoHeads(q: Queues, dirty: map<Address, Tx>, size: nat, x: Tx, y: Tx)
    requires Inv(q, dirty, {}, size) && q.Keys == {x.account, y.account} && x.account != y.account
    requires q[x.account].items == map[x.nonce := x] && q[y.account].items == map[y.nonce := y]
    ensures dirty == map[x.account := x, y.account := y]
  {
    assert HeadAt(q, dirty, {}, x.account) && HeadAt(q, dirty, {}, y.account);
    forall a | a in dirty ensures a == x.account || a == y.account {
      assert HeadAt(q, dirty, {}, a);
    }
  }

  // ---------------------------------------------------------------- calls that are not calm

  /** Popping the only transaction of an account, of the last but one number, dereferences nil. */
  method PopPanics(getNonceFn: Address -> nat, tx: Tx) returns (r: PopResult)
    requires tx.nonce == MAX_UINT64 - 1
    ensures r.Panicked?
  {
    var p := NewWith(getNonceFn, tx);
    r := p.Pop();
  }

  /** A new scheduler with one transaction. */
  method NewWith(getNonceFn: Address -> nat, tx: Tx) returns (p: PriorityQueue)
    requires tx.nonce < MAX_UINT64
    ensures fresh(p) && fresh(p.txsByPrice) && fresh(p.accountsM.Values) && fresh(p.Footprint(tx.account))
    ensures p.Valid() && p.suspended == {}
    ensures p.txsByPrice.priced != [] && p.txsByPrice.priced[0] == tx
    ensures p.model.Keys == {tx.account} && p.model[tx.account].items == map[tx.nonce := tx]
  {
    hide Inv, Mirrors, PriorityQueue.Linked;
    p := new PriorityQueue(getNonceFn);
    p.Push(tx);
    assert map[][tx.nonce := tx] == map[tx.nonce := tx];
    OneHead(p.model, p.txsByPrice.dirtyAccounts, p.nonBatchSize, tx);
    OnTop(p.txsByPrice.priced, p.txsByPrice.dirtyAccounts, tx);
  }

  lemma OneHead(q: Queues, dirty: map<Address, Tx>, size: nat, tx: Tx)
    requires Inv(q, dirty, {}, size) && q.Keys == {tx.account} && IsHead(q[tx.account].items, tx)
    ensures dirty == map[tx.account := tx]
  {
    assert HeadAt(q, dirty, {}, tx.account);
    HeadIsUnique(q[tx.account].items, tx, dirty[tx.account]);
    forall a | a in dirty ensures a == tx.account {
      assert HeadAt(q, dirty, {}, a);
    }
  }

  lemma OnTop(priced: seq<Tx>, dirty: map<Address, Tx>, tx: Tx)
    requires Mirrors(multiset(priced), dirty) && dirty == map[tx.account := tx]
    ensures priced != [] && priced[0] == tx
  {
    Mirrored(priced, dirty, tx);
    Mirrored(priced, dirty, priced[0]);
  }

  /** Removing from a transaction on that is not the queued object leaves heads and heap wrong. */
  method RemoveBehindBreaks(getNonceFn: Address -> nat, tx: Tx, other: Tx) returns (p: PriorityQueue)
    requires tx.nonce < MAX_UINT64 && other.account == tx.account && other.nonce == tx.nonce && other != tx
    ensures !p.Valid()
  {
    hide PriorityQueue.Valid, Took;
    p := NewWith(getNonceFn, tx);
    assert IsHead(ItemsOf(p.model, tx.account), tx);
    var removed := p.RemoveTxBehindNonce(other);
  }

  /** Replacing a nonce that is not queued makes the size wrong. */
  method ReplaceBreaks(getNonceFn: Address -> nat, tx: Tx, other: Tx) returns (p: PriorityQueue)
    requires tx.nonce < MAX_UINT64 && other.account == tx.account && other.nonce != tx.nonce
    ensures !p.Valid()
  {
    hide PriorityQueue.Valid, Took;
    p := NewWith(getNonceFn, tx);
    var head := p.ReplaceTx(other);
  }

  /** Putting back another object under the head's nonce leaves the heap wrong. */
  method PushBackBreaks(getNonceFn: Address -> nat, tx: Tx, other: Tx) returns (p: PriorityQueue)
    requires tx.nonce < MAX_UINT64 && other.account == tx.account && other.nonce == tx.nonce && other != tx
    ensures !p.Valid()
  {
    hide PriorityQueue.Valid, Took;
    p := NewWith(getNonceFn, tx);
    assert IsHead(ItemsOf(p.model, tx.account), tx);
    p.PushBack(other);
  }

  /** A push below the lowest nonce that leaves a gap: once it is popped, the rest of its account's
      queue is in no heap and is not popped. */
  method GapStrands(getNonceFn: Address -> nat, tx: Tx, lower: Tx)
    returns (p: PriorityQueue, r: PopResult, s: PopResult)
    requires tx.nonce < MAX_UINT64 && lower.account == tx.account && lower.nonce + 1 < tx.nonce
    ensures r == Popped(lower) && s == Nothing && ItemsOf(p.model, tx.account) == map[tx.nonce := tx]
  {
    p := TwoApart(getNonceFn, tx, lower);
    r := PopStranding(p, tx, lower);
    s := p.Pop();
  }

  method TwoApart(getNonceFn: Address -> nat, tx: Tx, lower: Tx) returns (p: PriorityQueue)
    requires tx.nonce < MAX_UINT64 && lower.account == tx.account && lower.nonce + 1 < tx.nonce
    ensures fresh(p) && fresh(p.txsByPrice) && fresh(p.accountsM.Values) && p.Valid() && p.suspended == {}
    ensures p.txsByPrice.dirtyAccounts == map[lower.account := lower]
    ensures p.model.Keys == {tx.account} && p.model[tx.account].items == map[tx.nonce := tx, lower.nonce := lower]
  {
    hide Mirrors, Inv, Queue.Ok, PriorityQueue.Linked;
    p := NewWith(getNonceFn, tx);
    LowerIsLetIn(p.model, p.txsByPrice.dirtyAccounts, p.nonBatchSize, tx, lower);
    ghost var queues := p.accountsM;
    assert forall a :: a in queues ==> queues[a] in queues.Values;
    p.Push(lower);
    OneHead(p.model, p.txsByPrice.dirtyAccounts, p.nonBatchSize, lower);
  }

  lemma LowerIsLetIn(q: Queues, dirty: map<Address, Tx>, size: nat, tx: Tx, lower: Tx)
    requires Inv(q, dirty, {}, size) && tx.account in q && q[tx.account].items == map[tx.nonce := tx]
             && lower.nonce < tx.nonce
    ensures q[tx.account].Accepts(lower.nonce)
  {
    InHeap(q[tx.account], tx.account, tx.nonce);
    TopIsHead(q[tx.account], tx.account);
  }

  method PopStranding(p: PriorityQueue, tx: Tx, lower: Tx) returns (r: PopResult)
    requires p.Valid() && p.suspended == {} && p.txsByPrice.dirtyAccounts == map[lower.account := lower]
    requires lower.account == tx.account && lower.nonce + 1 < tx.nonce && p.model.Keys == {tx.account}
    requires p.model[tx.account].items == map[tx.nonce := tx, lower.nonce := lower]
    modifies p`model, p`nonBatchSize, p`suspended, p.txsByPrice, p.accountsM.Values
    ensures r == Popped(lower) && p.Valid() && p.txsByPrice.priced == []
    ensures ItemsOf(p.model, tx.account) == map[tx.nonce := tx]
  {
    hide Mirrors, Inv, PriorityQueue.Linked;
    OnTop(p.txsByPrice.priced, p.txsByPrice.dirtyAccounts, lower);
    r := p.Pop();
    NoneOnTop(p.txsByPrice.priced, p.txsByPrice.dirtyAccounts);
  }

  lemma NoneOnTop(priced: seq<Tx>, dirty: map<Address, Tx>)
    requires Mirrors(multiset(priced), dirty) && dirty == map[]
    ensures priced == []
  {
    if priced != [] {
      Mirrored(priced, dirty, priced[0]);
    }
  }
}
