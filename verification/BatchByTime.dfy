/** Building a batch in time order, chasing transactions that were skipped as not ready. */
module BatchByTime {
  import opened Types

  /** Next for its account: its nonce is the commit nonce, or its predecessor is batched. */
  predicate Ready(commit: Address -> nat, batched: set<Ptr>, p: Ptr) {
    p.1 == commit(p.0) || (p.1 >= 1 && (p.0, p.1 - 1) in batched)
  }

  /** Every account's batched nonces are a run that starts at its commit nonce. */
  ghost predicate Runs(commit: Address -> nat, batched: set<Ptr>) {
    forall a, n: nat :: (a, n) in batched ==>
        commit(a) <= n
        && forall m: nat :: commit(a) <= m <= n ==> (a, m) in batched
  }

  lemma RunsExtend(commit: Address -> nat, batched: set<Ptr>, p: Ptr)
    requires Runs(commit, batched) && Ready(commit, batched, p)
    ensures Runs(commit, batched + {p})
    ensures p !in batched ==> (p.0, p.1 + 1) !in batched
  {
  }

  ghost function Elements(s: seq<Ptr>): set<Ptr> {
    set p | p in s
  }

  /** The batch adds to what was batched before, each entry once, each ready when it is added. */
  ghost predicate Grew(commit: Address -> nat, before: set<Ptr>, batch: seq<Ptr>, now: set<Ptr>) {
    if batch == [] then now == before
    else
      var front, p := batch[..|batch| - 1], batch[|batch| - 1];
      p in now && Ready(commit, now - {p}, p) && Grew(commit, before, front, now - {p})
  }

  lemma GrewNext(commit: Address -> nat, before: set<Ptr>, batch: seq<Ptr>, now: set<Ptr>, p: Ptr)
    requires Grew(commit, before, batch, now) && p !in now && Ready(commit, now, p)
    ensures Grew(commit, before, batch + [p], now + {p})
  {
    assert (batch + [p])[..|batch|] == batch && now + {p} - {p} == now;
  }

  /** The same told position by position: no entry is repeated or was batched before, and each is
      ready given the entries in front of it. */
  lemma {:induction false} GrewMeans(commit: Address -> nat, before: set<Ptr>, batch: seq<Ptr>, now: set<Ptr>)
    requires Grew(commit, before, batch, now)
    ensures now == before + Elements(batch)
    ensures forall i :: 0 <= i < |batch| ==> batch[i] !in before && batch[i] !in batch[..i]
    ensures forall i :: 0 <= i < |batch| ==> Ready(commit, before + Elements(batch[..i]), batch[i])
    decreases |batch|
  {
    if batch == [] {
      assert Elements(batch) == {};
    } else {
      var n := |batch| - 1;
      var front, p := batch[..n], batch[n];
      GrewMeans(commit, before, front, now - {p});
      assert Elements(batch) == Elements(front) + {p} by {
        assert batch == front + [p];
      }
      assert now - {p} == before + Elements(front);
      assert p !in Elements(front);
      forall i | 0 <= i < |batch|
        ensures batch[i] !in before && batch[i] !in batch[..i] && Ready(commit, before + Elements(batch[..i]), batch[i])
      {
        if i < n {
          assert batch[..i] == front[..i] && batch[i] == front[i];
        }
      }
    }
  }

  /** No skipped transaction is ready, except perhaps the given one. */
  ghost predicate NoneReadyBut(commit: Address -> nat, skipped: set<Ptr>, batched: set<Ptr>, q: Ptr) {
    forall p :: p in skipped && p != q ==> p in batched || !Ready(commit, batched, p)
  }

  ghost predicate NoneReady(commit: Address -> nat, skipped: set<Ptr>, batched: set<Ptr>) {
    forall p :: p in skipped ==> p in batched || !Ready(commit, batched, p)
  }

  /** Batching q can only make its successor ready. */
  lemma NoneReadyNext(commit: Address -> nat, skipped: set<Ptr>, batched: set<Ptr>, q: Ptr)
    requires NoneReadyBut(commit, skipped, batched, q)
    ensures NoneReadyBut(commit, skipped, batched + {q}, (q.0, q.1 + 1))
  {
  }

  /** The nonce after the given one, in unsigned 64-bit arithmetic. */
  function Next(p: Ptr): Ptr {
    (p.0, (p.1 + 1) % (MAX_UINT64 + 1))
  }

  /** The cap stops the batch when it is reached; a cap of zero never is. */
  predicate Capped(batch: seq<Ptr>, batchSize: nat) {
    0 < batchSize <= |batch|
  }

  /** The transaction, and skipped ones that follow it one by one. */
  ghost predicate Chain(skipped: set<Ptr>, p: Ptr, extra: seq<Ptr>) {
    && extra != [] && extra[0] == p
    && forall i :: 0 < i < |extra| ==> extra[i] == Next(extra[i - 1]) && extra[i] in skipped
  }

  /** Add a transaction and then the skipped ones that follow it, until the batch is full. */
  method Include(skipped: set<Ptr>, batchSize: nat, p: Ptr, batch: seq<Ptr>, batched: set<Ptr>)
    returns (batch': seq<Ptr>, batched': set<Ptr>, full: bool, ghost extra: seq<Ptr>)
    requires p.1 <= MAX_UINT64 && p !in skipped && !Capped(batch, batchSize)
    ensures Chain(skipped, p, extra) && batch' == batch + extra && batched' == batched + Elements(extra)
    ensures full ==> |batch'| == batchSize > 0
    ensures !full ==> !Capped(batch', batchSize) && Next(extra[|extra| - 1]) !in skipped
  {
    hide Next, Ahead, Elements;
    var q := p;
    batch', batched', extra := batch, batched, [];
    AheadSteps(p, 0);
    NoElements();
    while true
      invariant |extra| <= MAX_UINT64 && q == Ahead(p, |extra|)
      invariant if extra == [] then q == p else Chain(skipped, p, extra) && q == Next(extra[|extra| - 1])
                                                && q in skipped
      invariant batch' == batch + extra && batched' == batched + Elements(extra) && !Capped(batch', batchSize)
      decreases MAX_UINT64 - |extra|
    {
      ElementsSnoc(extra, q);
      AheadSteps(p, |extra|);
      batch', batched', extra := batch' + [q], batched' + {q}, extra + [q];
      if |batch'| == batchSize {
        return batch', batched', true, extra;
      }
      q := Next(q);
      if q !in skipped {
        return batch', batched', false, extra;
      }
    }
  }

  lemma NoElements()
    ensures Elements([]) == {}
  {
  }

  lemma ElementsSnoc(s: seq<Ptr>, q: Ptr)
    ensures Elements(s + [q]) == Elements(s) + {q}
  {
  }

  /** The nonce k places after the given one. */
  function Ahead(p: Ptr, k: nat): Ptr {
    (p.0, (p.1 + k) % (MAX_UINT64 + 1))
  }

  lemma AheadSteps(p: Ptr, k: nat)
    requires p.1 <= MAX_UINT64
    ensures Ahead(p, 0) == p == Ahead(p, MAX_UINT64 + 1) && Next(Ahead(p, k)) == Ahead(p, k + 1)
  {
  }

  lemma ChainStep(commit: Address -> nat, skipped: set<Ptr>, before: set<Ptr>, batch: seq<Ptr>, now: set<Ptr>, q: Ptr)
    requires Grew(commit, before, batch, now) && Runs(commit, now) && NoneReadyBut(commit, skipped, now, q)
    requires q !in now && Ready(commit, now, q)
    ensures Grew(commit, before, batch + [q], now + {q}) && Runs(commit, now + {q})
    ensures NoneReadyBut(commit, skipped, now + {q}, (q.0, q.1 + 1)) && (q.0, q.1 + 1) !in now + {q}
    ensures Ready(commit, now + {q}, (q.0, q.1 + 1))
  {
    hide Grew, Runs, Ready;
    GrewNext(commit, before, batch, now, q);
    RunsExtend(commit, now, q);
    NoneReadyNext(commit, skipped, now, q);
    ReadyAfter(commit, now, q);
  }

  /** A chain that does not run past the largest nonce adds ready transactions only, and leaves nothing
      ready but what follows it. */
  lemma {:induction false} ChainGrows(commit: Address -> nat, skipped: set<Ptr>, before: set<Ptr>, batch: seq<Ptr>,
                                      batched: set<Ptr>,
                                      p: Ptr, extra: seq<Ptr>)
    requires Grew(commit, before, batch, batched) && Runs(commit, batched) && NoneReadyBut(commit, skipped, batched, p)
    requires p !in batched && Ready(commit, batched, p) && Chain(skipped, p, extra)
    requires forall i :: 0 <= i < |extra| - 1 ==> extra[i].1 < MAX_UINT64
    ensures Grew(commit, before, batch + extra, batched + Elements(extra)) && Runs(commit, batched + Elements(extra))
    ensures var last := extra[|extra| - 1];
            && NoneReadyBut(commit, skipped, batched + Elements(extra), (last.0, last.1 + 1))
            && (last.0, last.1 + 1) !in batched + Elements(extra)
                && Ready(commit, batched + Elements(extra), (last.0, last.1 + 1))
    decreases |extra|
  {
    hide Grew, Runs, Ready, NoneReadyBut, Elements, Chain;
    var n := |extra| - 1;
    ChainSplits(skipped, p, extra);
    var front, last := extra[..n], extra[n];
    ElementsSnoc(front, last);
    assert extra == front + [last] && batch + extra == batch + front + [last];
    assert batched + Elements(extra) == batched + Elements(front) + {last};
    if n == 0 {
      assert batched + Elements(front) == batched && batch + front == batch;
    } else {
      ChainGrows(commit, skipped, before, batch, batched, p, front);
    }
    ChainStep(commit, skipped, before, batch + front, batched + Elements(front), last);
  }

  lemma ChainSplits(skipped: set<Ptr>, p: Ptr, extra: seq<Ptr>)
    requires Chain(skipped, p, extra)
    ensures extra != []
    ensures |extra| == 1 ==> extra[0] == p && Elements(extra[..0]) == {}
    ensures var n := |extra| - 1;
            n > 0 ==> Chain(skipped, p, extra[..n])
                      && (extra[n - 1].1 < MAX_UINT64 ==> extra[n] == (extra[n - 1].0, extra[n - 1].1 + 1))
  {
  }

  lemma ReadyAfter(commit: Address -> nat, batched: set<Ptr>, q: Ptr)
    ensures Ready(commit, batched + {q}, (q.0, q.1 + 1))
  {
  }

  /** What the walk over the index collects. */
  datatype Builder = Builder(batch: seq<Ptr>, batched: set<Ptr>, skipped: set<Ptr>, invalid: map<Address, nat>)

  /** The chain stopped because nothing skipped follows it. */
  ghost predicate EndsAt(skipped: set<Ptr>, extra: seq<Ptr>) {
    extra != [] ==> Next(extra[|extra| - 1]) !in skipped
  }

  /** What looking at one entry does: nothing for an account with an invalid entry or for an entry already
      batched; an invalid entry marks its account; one that is not ready is skipped; a ready one is added
      with the skipped ones that follow it. */
  ghost predicate Visited(b: Builder, p: Ptr, ok: bool, commit: Address -> nat, b': Builder, extra: seq<Ptr>) {
    if p.0 in b.invalid || (ok && p in b.batched) then b' == b && extra == []
    else if !ok then b' == b.(invalid := b.invalid[p.0 := p.1]) && extra == []
    else if !Ready(commit, b.batched, p) then b' == b.(skipped := b.skipped + {p}) && extra == []
    else Chain(b.skipped, p, extra) && b' == b.(batch := b.batch + extra, batched := b.batched + Elements(extra))
  }

  /** Look at one entry of the index. */
  method Visit(b: Builder, p: Ptr, ok: bool, commit: Address -> nat, batchSize: nat)
    returns (b': Builder, full: bool, ghost extra: seq<Ptr>)
    requires p.1 <= MAX_UINT64 && p !in b.skipped && !Capped(b.batch, batchSize)
    ensures Visited(b, p, ok, commit, b', extra)
    ensures full ==> |b'.batch| == batchSize > 0
    ensures !full ==> !Capped(b'.batch, batchSize) && EndsAt(b.skipped, extra)
  {
    b', full, extra := b, false, [];
    if p.0 in b.invalid {
      return;
    }
    if !ok {
      b' := b.(invalid := b.invalid[p.0 := p.1]);
      return;
    }
    if p in b.batched {
      return;
    }
    if Ready(commit, b.batched, p) {
      var batch, batched;
      batch, batched, full, extra := Include(b.skipped, batchSize, p, b.batch, b.batched);
      b' := b.(batch := batch, batched := batched);
    } else {
      b' := b.(skipped := b.skipped + {p});
    }
  }

  /** The entry is ready at the start and no invalid entry of its account comes first. */
  ghost predicate Taken(order: seq<Ptr>, valid: Ptr -> bool, commit: Address -> nat, batched: set<Ptr>, i: nat)
    requires i < |order|
  {
    && order[i] !in batched && Ready(commit, batched, order[i]) && !Spoiled(order, valid, order[i].0, i + 1)
  }

  /** An entry of the account among the first k is invalid. */
  ghost predicate Spoiled(order: seq<Ptr>, valid: Ptr -> bool, a: Address, k: nat)
    requires k <= |order|
  {
    exists j :: 0 <= j < k && order[j].0 == a && !valid(order[j])
  }

  /** No account has both the largest nonce and a stale nonce zero in the index. */
  ghost predicate EndsApart(order: seq<Ptr>, commit: Address -> nat) {
    forall a :: (a, MAX_UINT64) in order && (a, 0) in order ==> commit(a) == 0
  }

  /** What holds between two entries. */
  ghost predicate Walked(order: seq<Ptr>, valid: Ptr -> bool, commit: Address -> nat, before: set<Ptr>, i: nat,
                         b: Builder)
    requires i <= |order|
  {
    && (forall p :: p in b.skipped ==> p in order[..i] && valid(p) && p.1 != commit(p.0))
    && (forall p :: p in b.batched ==> p in before || (p in order && valid(p)))
    && (forall a :: a in b.invalid ==> (a, b.invalid[a]) in order && !valid((a, b.invalid[a])))
    && (forall a :: a in b.invalid <==> Spoiled(order, valid, a, i))
    && (forall j :: 0 <= j < i ==> order[j].0 in b.invalid || order[j] in b.batched || order[j] in b.skipped)
  }

  /** Either nothing was ready so far and nothing changed, or some ready entry was taken. */
  ghost predicate Started(order: seq<Ptr>, valid: Ptr -> bool, commit: Address -> nat, before: set<Ptr>, i: nat,
                          b: Builder)
    requires i <= |order|
  {
    && (b.batch == [] ==> b.batched == before)
    && (b.batch == [] <==> forall j :: 0 <= j < i ==> !Taken(order, valid, commit, before, j))
  }

  /** Batched nonces are runs, and nothing skipped is ready. */
  ghost predicate Growing(commit: Address -> nat, before: set<Ptr>, b: Builder) {
    Grew(commit, before, b.batch, b.batched) && Runs(commit, b.batched) && NoneReady(commit, b.skipped, b.batched)
  }

  lemma SpoiledNext(order: seq<Ptr>, valid: Ptr -> bool, a: Address, i: nat)
    requires i < |order|
    ensures Spoiled(order, valid, a, i + 1) <==> Spoiled(order, valid, a, i) || (order[i].0 == a && !valid(order[i]))
  {
  }

  ghost predicate Index(order: seq<Ptr>) {
    && (forall i, j :: 0 <= i < j < |order| ==> order[i] != order[j])
    && (forall i :: 0 <= i < |order| ==> order[i].1 <= MAX_UINT64)
  }

  lemma ChainWithin(skipped: set<Ptr>, p: Ptr, extra: seq<Ptr>, q: Ptr)
    requires Chain(skipped, p, extra) && q in Elements(extra)
    ensures q == p || q in skipped
  {
  }

  lemma WalkedNext(order: seq<Ptr>, valid: Ptr -> bool, commit: Address -> nat, before: set<Ptr>, i: nat,
                   b: Builder, b': Builder, extra: seq<Ptr>)
    requires i < |order| && Walked(order, valid, commit, before, i, b)
    requires Visited(b, order[i], valid(order[i]), commit, b', extra)
    ensures Walked(order, valid, commit, before, i + 1, b')
  {
    hide Chain, Elements, Spoiled;
    assert order[..i + 1] == order[..i] + [order[i]];
    forall q | Chain(b.skipped, order[i], extra) && q in Elements(extra) ensures q == order[i] || q in b.skipped {
      ChainWithin(b.skipped, order[i], extra, q);
    }
    forall a
      ensures Spoiled(order, valid, a, i + 1) <==>
              Spoiled(order, valid, a, i) || (order[i].0 == a && !valid(order[i]))
    {
      SpoiledNext(order, valid, a, i);
    }
    if Chain(b.skipped, order[i], extra) {
      ChainHas(b.skipped, order[i], extra);
    }
  }

  lemma ChainHas(skipped: set<Ptr>, p: Ptr, extra: seq<Ptr>)
    requires Chain(skipped, p, extra)
    ensures extra != [] && p in Elements(extra)
  {
  }

  lemma StartedNext(order: seq<Ptr>, valid: Ptr -> bool, commit: Address -> nat, before: set<Ptr>, i: nat,
                    b: Builder, b': Builder, extra: seq<Ptr>)
    requires i < |order| && Walked(order, valid, commit, before, i, b) && Started(order, valid, commit, before, i, b)
    requires Visited(b, order[i], valid(order[i]), commit, b', extra)
    ensures Started(order, valid, commit, before, i + 1, b')
  {
    hide Chain, Elements, Spoiled, Ready;
    SpoiledNext(order, valid, order[i].0, i);
    if Chain(b.skipped, order[i], extra) {
      ChainHas(b.skipped, order[i], extra);
    }
    assert b'.batch == [] <==> b.batch == [] && !Taken(order, valid, commit, before, i);
  }

  /** With the ends apart no chain runs past the largest nonce. */
  lemma ChainStaysBelow(order: seq<Ptr>, valid: Ptr -> bool, commit: Address -> nat, before: set<Ptr>, i: nat,
                        b: Builder, extra: seq<Ptr>)
    requires i < |order| && Index(order) && EndsApart(order, commit) && Walked(order, valid, commit, before, i, b)
    requires Chain(b.skipped, order[i], extra)
    ensures forall k :: 0 <= k < |extra| - 1 ==> extra[k].1 < MAX_UINT64
  {
    hide Spoiled;
    forall k | 0 <= k < |extra| - 1 ensures extra[k].1 < MAX_UINT64 {
      assert extra[k] in order && extra[k + 1] in order[..i] && extra[k + 1].1 != commit(extra[k + 1].0);
      assert extra[k + 1] == Next(extra[k]);
    }
  }

  lemma GrowingNext(order: seq<Ptr>, valid: Ptr -> bool, commit: Address -> nat, before: set<Ptr>, i: nat,
                    b: Builder, b': Builder, extra: seq<Ptr>)
    requires i < |order| && Index(order) && EndsApart(order, commit) && Walked(order, valid, commit, before, i, b)
    requires Growing(commit, before, b) && Visited(b, order[i], valid(order[i]), commit, b', extra)
    ensures Grew(commit, before, b'.batch, b'.batched) && Runs(commit, b'.batched)
    ensures EndsAt(b.skipped, extra) ==> Growing(commit, before, b')
  {
    hide Grew, Runs, Ready, Elements, Spoiled, EndsApart;
    if Chain(b.skipped, order[i], extra) && b'.batch != b.batch {
      ChainStaysBelow(order, valid, commit, before, i, b, extra);
      ChainGrows(commit, b.skipped, before, b.batch, b.batched, order[i], extra);
      var last := extra[|extra| - 1];
      assert last == order[i] || last in b.skipped;
      assert (last.0, last.1 + 1) in b.skipped ==> Next(last) == (last.0, last.1 + 1);
    }
  }

  /** Walk the index in order and collect what is ready. For any order of the index the batch is empty
      exactly when nothing is ready at the start, so a cap of zero caps exactly then. Each account's
      batched nonces stay a run and, below the cap, no ready transaction of an account without invalid
      ones is left, unless a chain runs past the largest nonce. */
  method PopExecutableTxsByTime(order: seq<Ptr>, valid: Ptr -> bool, commit: Address -> nat, batched: set<Ptr>,
                                batchSize: nat)
    returns (batch: seq<Ptr>, batched': set<Ptr>, invalid: map<Address, nat>)
    requires Index(order)
    ensures batch == [] <==> forall i :: 0 <= i < |order| ==> !Taken(order, valid, commit, batched, i)
    ensures |batch| <= batchSize <==>
            batchSize > 0
            || forall i :: 0 <= i < |order| ==> !Taken(order, valid, commit, batched, i)
    ensures forall p :: p in batched' ==> p in batched || (p in order && valid(p))
    ensures forall a :: a in invalid ==> (a, invalid[a]) in order && !valid((a, invalid[a]))
    ensures !Capped(batch, batchSize) ==> forall p :: p in order && !valid(p) ==> p.0 in invalid
    ensures Runs(commit, batched) && EndsApart(order, commit) ==>
            Grew(commit, batched, batch, batched') && Runs(commit, batched')
    ensures Runs(commit, batched) && EndsApart(order, commit) && !Capped(batch, batchSize) ==>
              forall p :: p in order && p.0 !in invalid ==> p in batched' || !Ready(commit, batched', p)
  {
    hide Grew, Runs, Ready, Walked, Started, Growing, Visited, Taken, EndsApart;
    var b := Builder([], batched, {}, map[]);
    WalkStarts(order, valid, commit, batched);
    for i := 0 to |order|
      invariant Walked(order, valid, commit, batched, i, b) && Started(order, valid, commit, batched, i, b)
      invariant Runs(commit, batched) && EndsApart(order, commit) ==> Growing(commit, batched, b)
      invariant !Capped(b.batch, batchSize)
    {
      FreshEntry(order, valid, commit, batched, i, b);
      var b', full;
      ghost var extra;
      b', full, extra := Visit(b, order[i], valid(order[i]), commit, batchSize);
      WalkedNext(order, valid, commit, batched, i, b, b', extra);
      StartedNext(order, valid, commit, batched, i, b, b', extra);
      if Runs(commit, batched) && EndsApart(order, commit) {
        GrowingNext(order, valid, commit, batched, i, b, b', extra);
      }
      b := b';
      if full {
        WalkEnds(order, valid, commit, batched, i + 1, b);
        return b.batch, b.batched, b.invalid;
      }
    }
    WalkEnds(order, valid, commit, batched, |order|, b);
    if Growing(commit, batched, b) {
      NothingReady(order, valid, commit, batched, b);
    }
    return b.batch, b.batched, b.invalid;
  }

  lemma WalkStarts(order: seq<Ptr>, valid: Ptr -> bool, commit: Address -> nat, batched: set<Ptr>)
    ensures var b := Builder([], batched, {}, map[]);
            && Walked(order, valid, commit, batched, 0, b) && Started(order, valid, commit, batched, 0, b)
            && (Runs(commit, batched) ==> Growing(commit, batched, b))
  {
  }

  lemma FreshEntry(order: seq<Ptr>, valid: Ptr -> bool, commit: Address -> nat, batched: set<Ptr>, i: nat, b: Builder)
    requires i < |order| && Index(order) && Walked(order, valid, commit, batched, i, b)
    ensures order[i] !in b.skipped && order[i].1 <= MAX_UINT64
  {
    hide Spoiled;
    assert order[i] !in order[..i];
  }

  lemma WalkEnds(order: seq<Ptr>, valid: Ptr -> bool, commit: Address -> nat, batched: set<Ptr>, i: nat, b: Builder)
    requires i <= |order| && Walked(order, valid, commit, batched, i, b) && Started(order, valid, commit, batched, i, b)
    ensures b.batch != [] || i == |order| ==>
              (b.batch == [] <==> forall j :: 0 <= j < |order| ==> !Taken(order, valid, commit, batched, j))
    ensures forall p :: p in b.batched ==> p in batched || (p in order && valid(p))
    ensures forall a :: a in b.invalid ==> (a, b.invalid[a]) in order && !valid((a, b.invalid[a]))
    ensures i == |order| ==> forall p :: p in order && !valid(p) ==> p.0 in b.invalid
  {
    hide Taken;
    if i == |order| {
      forall p | p in order && !valid(p) ensures p.0 in b.invalid {
        var j :| 0 <= j < |order| && order[j] == p;
        assert Spoiled(order, valid, p.0, i);
      }
    }
  }

  lemma NothingReady(order: seq<Ptr>, valid: Ptr -> bool, commit: Address -> nat, batched: set<Ptr>, b: Builder)
    requires Walked(order, valid, commit, batched, |order|, b) && Growing(commit, batched, b)
    ensures Grew(commit, batched, b.batch, b.batched) && Runs(commit, b.batched)
    ensures forall p :: p in order && p.0 !in b.invalid ==> p in b.batched || !Ready(commit, b.batched, p)
  {
    hide Spoiled, Ready, Grew, Runs;
  }

  // ---------------------------------------------------------------- where it fails

  /** Everything from the entry to the largest nonce, and nonce zero, was skipped, and there is room
      for all of it. */
  ghost predicate RunsRound(b: Builder, p: Ptr, batchSize: nat) {
    && (p.0, 0) in b.skipped && (forall n: nat :: p.1 < n <= MAX_UINT64 ==> (p.0, n) in b.skipped)
    && (batchSize == 0 || |b.batch| + MAX_UINT64 - p.1 + 2 <= batchSize)
  }

  /** Adding a ready entry and what follows it keeps the batched nonces runs exactly when the chain does
      not run round to a stale nonce zero. */
  lemma VisitKeepsRunsIff(commit: Address -> nat, before: set<Ptr>, b: Builder, p: Ptr, batchSize: nat, extra: seq<Ptr>)
    requires Growing(commit, before, b) && p !in b.batched && Ready(commit, b.batched, p) && p.1 <= MAX_UINT64
    requires forall q :: q in b.skipped ==> q.1 != commit(q.0)
    requires Chain(b.skipped, p, extra)
    requires |b.batch| + |extra| == batchSize
             || ((batchSize == 0 || |b.batch| + |extra| < batchSize) && EndsAt(b.skipped, extra))
    ensures Runs(commit, b.batched + Elements(extra)) <==> !RunsRound(b, p, batchSize)
  {
    hide Grew, Runs, Ready, Next, Ahead;
    var left := MAX_UINT64 - p.1;
    forall k | 0 <= k < |extra| ensures extra[k] == Ahead(p, k) {
      ChainIsAhead(b.skipped, p, extra, k);
    }
    if |extra| <= left + 1 {
      forall k | 0 <= k < |extra| - 1 ensures extra[k].1 < MAX_UINT64 {
        AheadWithin(p, k);
      }
      ChainGrows(commit, b.skipped, before, b.batch, b.batched, p, extra);
      AheadSteps(p, |extra| - 1);
      AheadWithin(p, |extra|);
    } else {
      AheadWithin(p, left + 1);
      assert extra[left + 1] == (p.0, 0);
      NotARun(commit, b.batched + Elements(extra), p.0);
      forall n: nat | p.1 < n <= MAX_UINT64 ensures (p.0, n) in b.skipped {
        AheadWithin(p, n - p.1);
        assert extra[n - p.1] == (p.0, n);
      }
    }
  }

  lemma NotARun(commit: Address -> nat, batched: set<Ptr>, a: Address)
    requires (a, 0) in batched && commit(a) != 0
    ensures !Runs(commit, batched)
  {
  }

  lemma {:induction false} ChainIsAhead(skipped: set<Ptr>, p: Ptr, extra: seq<Ptr>, k: nat)
    requires Chain(skipped, p, extra) && p.1 <= MAX_UINT64 && k < |extra|
    ensures extra[k] == Ahead(p, k)
  {
    hide Next, Ahead;
    AheadSteps(p, if k == 0 then 0 else k - 1);
    if k > 0 {
      ChainIsAhead(skipped, p, extra, k - 1);
    }
  }

  lemma AheadWithin(p: Ptr, k: nat)
    requires p.1 <= MAX_UINT64 && p.1 + k <= MAX_UINT64 + 1
    ensures Ahead(p, k) == (p.0, if p.1 + k == MAX_UINT64 + 1 then 0 else p.1 + k)
  {
  }

  /** A cap of zero does not cap: a ready transaction is taken all the same. */
  method ZeroIsNoCap(a: Address, commit: Address -> nat, batchSize: nat) returns (batch: seq<Ptr>)
    requires commit(a) <= MAX_UINT64 && batchSize == 0
    ensures batch == [(a, commit(a))] && |batch| > batchSize
  {
    var order := [(a, commit(a))];
    var batched, invalid;
    batch, batched, invalid := PopExecutableTxsByTime(order, _ => true, commit, {}, batchSize);
    assert Taken(order, _ => true, commit, {}, 0);
    GrewMeans(commit, {}, batch, batched);
    assert forall i :: 0 <= i < |batch| ==> batch[i] in Elements(batch);
  }

  /** A stale nonce zero, seen before the largest nonce, is taken for its successor. */
  method StaleZeroFollows(a: Address) returns (b: Builder)
    ensures b.batch == [(a, MAX_UINT64), (a, 0)] && !Runs(_ => MAX_UINT64, b.batched)
  {
    var commit: Address -> nat := _ => MAX_UINT64;
    var full;
    ghost var extra;
    b, full, extra := Visit(Builder([], {}, {}, map[]), (a, 0), true, commit, 0);
    b, full, extra := Visit(b, (a, MAX_UINT64), true, commit, 0);
    RoundTheEnd(a, extra);
    assert (a, 0) in b.batched;
  }

  lemma RoundTheEnd(a: Address, extra: seq<Ptr>)
    requires Chain({(a, 0)}, (a, MAX_UINT64), extra) && EndsAt({(a, 0)}, extra)
    ensures extra == [(a, MAX_UINT64), (a, 0)]
  {
    hide Chain;
    ChainAt({(a, 0)}, (a, MAX_UINT64), extra, 1);
    ChainAt({(a, 0)}, (a, MAX_UINT64), extra, 2);
  }

  lemma ChainAt(skipped: set<Ptr>, p: Ptr, extra: seq<Ptr>, i: nat)
    requires Chain(skipped, p, extra) && i > 0
    ensures extra != [] && extra[0] == p
    ensures i < |extra| ==> extra[i] == Next(extra[i - 1]) && extra[i] in skipped
  {
  }

  /** A batch that leaves nothing ready holds every queued nonce that follows the commit nonce
      without a gap. */
  lemma {:induction false} ReadyRunIsTaken(order: seq<Ptr>, commit: Address -> nat, batched: set<Ptr>, a: Address,
                                           n: nat)
    requires forall p :: p in order && p.0 == a ==> p in batched || !Ready(commit, batched, p)
    requires commit(a) <= n && forall m: nat :: commit(a) <= m <= n ==> (a, m) in order
    ensures (a, n) in batched
    decreases n
  {
    assert (a, n) in order;
    if n > commit(a) {
      ReadyRunIsTaken(order, commit, batched, a, n - 1);
    }
  }
}
