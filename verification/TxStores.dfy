/** The pool's transactions: by hash, by account and nonce, and in nonce order. */
module TxStores {
  import opened Types

  datatype PoolTx = PoolTx(hash: Hash, account: Address, nonce: nat)

  // ---------------------------------------------------------------- the nonce index

  ghost predicate Ascending(s: seq<nat>) {
    forall i, j :: 0 <= i < j < |s| ==> s[i] < s[j]
  }

  lemma AscendingCons(x: nat, s: seq<nat>)
    requires Ascending(s) && forall m :: m in s ==> x < m
    ensures Ascending([x] + s)
  {
    var r := [x] + s;
    assert forall j :: 0 < j < |r| ==> r[j] in s;
  }

  function InsertKey(s: seq<nat>, n: nat): (r: seq<nat>)
    requires Ascending(s)
    ensures Ascending(r) && forall m :: m in r <==> m in s || m == n
  {
    if s == [] then [n]
    else if n < s[0] then [n] + s
    else if n == s[0] then s
    else
      assert s == [s[0]] + s[1..];
      var rest := InsertKey(s[1..], n);
      AscendingCons(s[0], rest);
      [s[0]] + rest
  }

  function RemoveKey(s: seq<nat>, n: nat): (r: seq<nat>)
    requires Ascending(s)
    ensures Ascending(r) && forall m :: m in r <==> m in s && m != n
  {
    if s == [] then []
    else
      assert s == [s[0]] + s[1..];
      if s[0] == n then s[1..]
      else
        var rest := RemoveKey(s[1..], n);
        AscendingCons(s[0], rest);
        [s[0]] + rest
  }

  /** One account's transactions. empty marks an account waiting to be collected. */
  datatype TxList = TxList(items: map<nat, PoolTx>, index: seq<nat>, empty: bool, emptyTime: int) {
    ghost predicate Ok(a: Address) {
      && Ascending(index)
      && (forall n :: n in index <==> n in items)
      && (forall n :: n in items ==> items[n].account == a && items[n].nonce == n)
      && (empty ==> items == map[])
    }

    function Put(tx: PoolTx): TxList
      requires Ascending(index)
    {
      TxList(items[tx.nonce := tx], InsertKey(index, tx.nonce), false, emptyTime)
    }

    function Drop(n: nat): TxList
      requires Ascending(index)
    {
      this.(items := items - {n}, index := RemoveKey(index, n))
    }
  }

  const NEW_LIST := TxList(map[], [], false, 0)

  type Hashes = map<Hash, Ptr>
  type Lists = map<Address, TxList>

  function Item(lists: Lists, a: Address, n: nat): Option<PoolTx> {
    if a in lists then Get(lists[a].items, n) else None
  }

  ghost predicate ListsOk(lists: Lists) {
    forall a :: a in lists ==> lists[a].Ok(a)
  }

  /** The transaction at a place has the given hash. */
  predicate Holds(lists: Lists, p: Ptr, h: Hash) {
    Item(lists, p.0, p.1).Some? && Item(lists, p.0, p.1).value.hash == h
  }

  /** The hash index points to exactly the transactions the lists hold, at their places. */
  ghost predicate Agree(hashes: Hashes, lists: Lists) {
    && ListsOk(lists)
    && (forall h :: h in hashes ==> Holds(lists, hashes[h], h))
    && (forall p, h :: Holds(lists, p, h) ==> Get(hashes, h) == Some(p))
  }

  /** Two sets of lists hold the same but perhaps at one place. */
  ghost predicate SameBut(lists: Lists, lists': Lists, p: Ptr) {
    forall a, n: nat :: (a, n) != p ==> Item(lists', a, n) == Item(lists, a, n)
  }

  ghost predicate SameItems(lists: Lists, lists': Lists) {
    forall a, n: nat :: Item(lists', a, n) == Item(lists, a, n)
  }

  lemma AddKeepsAgree(hashes: Hashes, lists: Lists, lists': Lists, p: Ptr, h: Hash)
    requires Agree(hashes, lists) && ListsOk(lists') && SameBut(lists, lists', p) && Item(lists, p.0, p.1).None?
    requires h !in hashes && Holds(lists', p, h)
    ensures Agree(hashes[h := p], lists')
  {
    hide ListsOk;
    var hashes' := hashes[h := p];
    forall k | k in hashes' ensures Holds(lists', hashes'[k], k) {
      if k != h { assert Holds(lists, hashes[k], k); }
    }
    forall q, k | Holds(lists', q, k) ensures Get(hashes', k) == Some(q) {
      if q != p {
        assert q == (q.0, q.1) && Holds(lists, q, k);
      }
    }
  }

  lemma DeleteKeepsAgree(hashes: Hashes, lists: Lists, lists': Lists, p: Ptr, h: Hash)
    requires Agree(hashes, lists) && ListsOk(lists') && SameBut(lists, lists', p) && Item(lists', p.0, p.1).None?
    requires Holds(lists, p, h)
    ensures Agree(hashes - {h}, lists')
  {
    hide ListsOk;
    var hashes' := hashes - {h};
    forall k | k in hashes' ensures Holds(lists', hashes'[k], k) {
      assert Holds(lists, hashes[k], k);
      var q := hashes[k];
      assert q == (q.0, q.1) && q != p;
    }
    forall q, k | Holds(lists', q, k) ensures Get(hashes', k) == Some(q) {
      assert q == (q.0, q.1) && q != p && Holds(lists, q, k);
      assert Get(hashes, h) == Some(p);
    }
  }

  lemma SameKeepsAgree(hashes: Hashes, lists: Lists, lists': Lists)
    requires Agree(hashes, lists) && ListsOk(lists') && SameItems(lists, lists')
    ensures Agree(hashes, lists')
  {
    hide ListsOk;
    forall h | h in hashes ensures Holds(lists', hashes[h], h) {
      assert Holds(lists, hashes[h], h);
    }
    forall p, h | Holds(lists', p, h) ensures Get(hashes, h) == Some(p) {
      assert Holds(lists, p, h);
    }
  }

  lemma PutList(lists: Lists, tx: PoolTx, l: TxList)
    requires ListsOk(lists) && l == if tx.account in lists then lists[tx.account] else NEW_LIST
    ensures Ascending(l.index) && ListsOk(lists[tx.account := l.Put(tx)])
    ensures SameBut(lists, lists[tx.account := l.Put(tx)], (tx.account, tx.nonce))
    ensures Item(lists[tx.account := l.Put(tx)], tx.account, tx.nonce) == Some(tx)
  {
  }

  lemma DropList(lists: Lists, a: Address, n: nat)
    requires ListsOk(lists) && a in lists
    ensures Ascending(lists[a].index) && ListsOk(lists[a := lists[a].Drop(n)])
    ensures SameBut(lists, lists[a := lists[a].Drop(n)], (a, n)) && Item(lists[a := lists[a].Drop(n)], a, n).None?
  {
  }

  lemma FlagList(lists: Lists, a: Address, now: int)
    requires ListsOk(lists) && a in lists && lists[a].items == map[]
    ensures ListsOk(lists[a := lists[a].(empty := true, emptyTime := now)])
    ensures SameItems(lists, lists[a := lists[a].(empty := true, emptyTime := now)])
  {
  }

  lemma CollectLists(lists: Lists, gone: set<Address>)
    requires ListsOk(lists) && forall a :: a in gone && a in lists ==> lists[a].empty
    ensures ListsOk(lists - gone) && SameItems(lists, lists - gone)
  {
  }

  // ---------------------------------------------------------------- reading a list in nonce order

  /** The transactions below a nonce, lowest first. */
  method Forward(l: TxList, commitNonce: nat, ghost a: Address) returns (txs: seq<PoolTx>)
    requires l.Ok(a)
    ensures forall i :: 0 <= i < |txs| ==> Get(l.items, txs[i].nonce) == Some(txs[i]) && txs[i].nonce < commitNonce
    ensures forall n :: n in l.items && n < commitNonce ==> l.items[n] in txs
    ensures forall i, j :: 0 <= i < j < |txs| ==> txs[i].nonce < txs[j].nonce
  {
    txs := [];
    for i := 0 to |l.index|
      invariant |txs| == i && forall j :: 0 <= j < i ==> l.index[j] in l.items && txs[j] == l.items[l.index[j]]
      invariant forall j :: 0 <= j < i ==> l.index[j] < commitNonce
    {
      if l.index[i] >= commitNonce {
        forall n | n in l.items && n < commitNonce ensures l.items[n] in txs {
          var k :| 0 <= k < |l.index| && l.index[k] == n;
          assert txs[k] == l.items[n];
        }
        return;
      }
      assert l.index[i] in l.items;
      txs := txs + [l.items[l.index[i]]];
    }
    forall n | n in l.items && n < commitNonce ensures l.items[n] in txs {
      var k :| 0 <= k < |l.index| && l.index[k] == n;
      assert txs[k] == l.items[n];
    }
  }

  /** The transactions from a nonce on, lowest first. */
  method Behind(l: TxList, highestNonce: nat, ghost a: Address) returns (txs: seq<PoolTx>)
    requires l.Ok(a)
    ensures forall i :: 0 <= i < |txs| ==> Get(l.items, txs[i].nonce) == Some(txs[i]) && txs[i].nonce >= highestNonce
    ensures forall n :: n in l.items && n >= highestNonce ==> l.items[n] in txs
    ensures forall i, j :: 0 <= i < j < |txs| ==> txs[i].nonce < txs[j].nonce
  {
    txs := [];
    var first := 0;
    while first < |l.index| && l.index[first] < highestNonce
      invariant 0 <= first <= |l.index| && forall j :: 0 <= j < first ==> l.index[j] < highestNonce
    {
      first := first + 1;
    }
    for i := first to |l.index|
      invariant |txs| == i - first && forall j :: first <= j < i ==>
          l.index[j] in l.items && txs[j - first] == l.items[l.index[j]]
    {
      assert l.index[i] in l.items;
      txs := txs + [l.items[l.index[i]]];
    }
    forall i | 0 <= i < |txs|
      ensures Get(l.items, txs[i].nonce) == Some(txs[i])
              && txs[i].nonce == l.index[first + i] >= highestNonce
    {
      assert l.index[first] <= l.index[first + i];
    }
    forall n | n in l.items && n >= highestNonce ensures l.items[n] in txs {
      var k :| 0 <= k < |l.index| && l.index[k] == n;
      assert txs[k - first] == l.items[n];
    }
  }

  /** Where the nonces from the given one on start. */
  method FirstFrom(index: seq<nat>, n: nat) returns (i: nat)
    ensures i <= |index| && (forall j :: 0 <= j < i ==> index[j] < n) && (i < |index| ==> n <= index[i])
  {
    i := 0;
    while i < |index| && index[i] < n
      invariant 0 <= i <= |index| && forall j :: 0 <= j < i ==> index[j] < n
    {
      i := i + 1;
    }
  }

  /** The longest run of transactions from the demanded nonce on, and the nonce it stops at, which is
      zero when the run takes the largest nonce. */
  method FilterReady(l: TxList, demandNonce: nat, ghost a: Address) returns (ready: seq<PoolTx>, next: nat)
    requires l.Ok(a) && demandNonce <= MAX_UINT64 && forall n :: n in l.items ==> n <= MAX_UINT64
    ensures demandNonce + |ready| !in l.items && next == (demandNonce + |ready|) % (MAX_UINT64 + 1)
    ensures demandNonce + |ready| <= MAX_UINT64 + 1
    ensures forall i :: 0 <= i < |ready| ==>
            ready[i].nonce == demandNonce + i && Get(l.items, ready[i].nonce) == Some(ready[i])
  {
    ready, next := [], demandNonce;
    var i := FirstFrom(l.index, demandNonce);
    assert forall j :: 0 <= j < |l.index| ==> l.index[j] in l.items;
    while i < |l.index| && l.index[i] == next
      invariant 0 <= i <= |l.index| && demandNonce + |ready| <= MAX_UINT64 + 1
      invariant next == if demandNonce + |ready| == MAX_UINT64 + 1 then 0 else demandNonce + |ready|
      invariant forall j :: 0 <= j < i ==> l.index[j] < demandNonce + |ready|
      invariant i < |l.index| ==> demandNonce + |ready| <= l.index[i] <= MAX_UINT64
      invariant forall j :: 0 <= j < |ready| ==>
          ready[j].nonce == demandNonce + j && Get(l.items, ready[j].nonce) == Some(ready[j])
    {
      ready, next := ready + [l.items[next]], if next == MAX_UINT64 then 0 else next + 1;
      i := i + 1;
    }
    assert demandNonce + |ready| !in l.index;
  }

  // ---------------------------------------------------------------- the store

  class TransactionStore {
    var txHashMap: Hashes
    var allTxs: Lists
    /** Places of transactions that are in a batch not executed yet. */
    var batchedTxs: set<Ptr>

    ghost predicate Valid()
      reads this
    {
      Agree(txHashMap, allTxs)
    }

    constructor ()
      ensures Valid() && txHashMap == map[] && allTxs == map[] && batchedTxs == {}
    {
      txHashMap, allTxs, batchedTxs := map[], map[], {};
    }

    method DeletePoolTx(account: Address, nonce: nat)
      requires Valid()
      modifies this`txHashMap, this`allTxs
      ensures Valid() && SameBut(old(allTxs), allTxs, (account, nonce)) && Item(allTxs, account, nonce).None?
      ensures Item(old(allTxs), account, nonce).None? ==> unchanged(this)
      ensures allTxs.Keys == old(allTxs).Keys && forall a :: a in allTxs ==> allTxs[a].empty == old(allTxs)[a].empty
    {
      if account !in allTxs || nonce !in allTxs[account].items {
        return;
      }
      hide Agree, ListsOk, SameBut;
      AgreeLists(txHashMap, allTxs);
      var poolTx := allTxs[account].items[nonce];
      DropList(allTxs, account, nonce);
      DeleteKeepsAgree(txHashMap, allTxs, allTxs[account := allTxs[account].Drop(nonce)], (account, nonce),
          poolTx.hash);
      allTxs := allTxs[account := allTxs[account].Drop(nonce)];
      txHashMap := txHashMap - {poolTx.hash};
    }

    /** Insert a transaction, replacing the one of the same account and nonce. Hashes and lists still
        agree exactly when a hash the pool knows belongs to that place: another entry is not moved. */
    method InsertPoolTx(tx: PoolTx)
      requires Valid()
      modifies this`txHashMap, this`allTxs
      ensures Valid() <==> AtHome(old(txHashMap), tx)
      ensures SameBut(old(allTxs), allTxs, (tx.account, tx.nonce)) && Item(allTxs, tx.account, tx.nonce) == Some(tx)
    {
      hide Agree, ListsOk, SameBut;
      ghost var hashes, before := txHashMap, allTxs;
      DeletePoolTx(tx.account, tx.nonce);
      ghost var mid := txHashMap;
      HashAfterDelete(hashes, before, mid, allTxs, (tx.account, tx.nonce), tx.hash);
      AgreeLists(txHashMap, allTxs);
      var l := if tx.account in allTxs then allTxs[tx.account] else NEW_LIST;
      PutList(allTxs, tx, l);
      if tx.hash !in mid {
        AddKeepsAgree(mid, allTxs, allTxs[tx.account := l.Put(tx)], (tx.account, tx.nonce), tx.hash);
      }
      SameButTrans(before, allTxs, allTxs[tx.account := l.Put(tx)], (tx.account, tx.nonce));
      allTxs := allTxs[tx.account := l.Put(tx)];
      if tx.hash !in txHashMap {
        txHashMap := txHashMap[tx.hash := (tx.account, tx.nonce)];
      } else {
        ElsewhereDisagrees(txHashMap, allTxs, (tx.account, tx.nonce), tx.hash);
      }
    }

    /** Remove the transaction at the place, if any, and put the new one there. */
    method ReplaceTx(tx: PoolTx) returns (replaced: bool)
      requires Valid()
      modifies this`txHashMap, this`allTxs
      ensures Valid() <==> AtHome(old(txHashMap), tx)
      ensures SameBut(old(allTxs), allTxs, (tx.account, tx.nonce)) && Item(allTxs, tx.account, tx.nonce) == Some(tx)
      ensures replaced == Item(old(allTxs), tx.account, tx.nonce).Some?
    {
      hide Agree, SameBut;
      ghost var hashes, before := txHashMap, allTxs;
      var oldPoolTx := Item(allTxs, tx.account, tx.nonce);
      replaced := oldPoolTx.Some?;
      DeletePoolTx(tx.account, tx.nonce);
      HashAfterDelete(hashes, before, txHashMap, allTxs, (tx.account, tx.nonce), tx.hash);
      ghost var mid := allTxs;
      InsertPoolTx(tx);
      SameButTrans(before, mid, allTxs, (tx.account, tx.nonce));
    }

    /** Remove an account's listed transactions and mark the account when nothing is left. The result
        is false, and the account unmarked, when a listed transaction is another account's. */
    method CleanTxsByAccount(account: Address, removed: seq<PoolTx>, now: int) returns (ok: bool)
      requires Valid() && account in allTxs
      modifies this
      ensures Valid() && account in allTxs && ok == (forall i :: 0 <= i < |removed| ==> removed[i].account == account)
      ensures forall a, n: nat :: Item(allTxs, a, n) ==
                if a == account && Listed(removed, n) then None else Item(old(allTxs), a, n)
      ensures forall p :: p in batchedTxs <==> p in old(batchedTxs) && !(p.0 == account && Listed(removed, p.1))
      ensures ok && allTxs[account].items == map[] ==> allTxs[account].empty && allTxs[account].emptyTime == now
      ensures !(ok && allTxs[account].items == map[]) ==> allTxs[account].empty == old(allTxs)[account].empty
    {
      hide Agree, ListsOk;
      ok := true;
      for i := 0 to |removed|
        invariant allTxs.Keys == old(allTxs).Keys && forall a :: a in allTxs ==> allTxs[a].empty == old(allTxs)[a].empty
        invariant Valid() && ok == (forall j :: 0 <= j < i ==> removed[j].account == account)
        invariant forall a, n: nat ::
                    Item(allTxs, a, n) ==
                    if a == account && Listed(removed[..i], n) then None else Item(old(allTxs), a, n)
        invariant forall p :: p in batchedTxs <==>
            p in old(batchedTxs) && !(p.0 == account && Listed(removed[..i], p.1))
      {
        ListedNext(removed, i);
        batchedTxs := batchedTxs - {(account, removed[i].nonce)};
        DeletePoolTx(account, removed[i].nonce);
        ok := ok && removed[i].account == account;
      }
      assert removed[..|removed|] == removed;
      if ok && |allTxs[account].items| == 0 {
        AgreeLists(txHashMap, allTxs);
        FlagList(allTxs, account, now);
        SameKeepsAgree(txHashMap, allTxs, allTxs[account := allTxs[account].(empty := true, emptyTime := now)]);
        allTxs := allTxs[account := allTxs[account].(empty := true, emptyTime := now)];
      }
    }

    /** Drop everything an account committed: the transactions below the commit nonce, and only those. */
    method CleanTxsBeforeCommitNonce(account: Address, commitNonce: nat, now: int)
      requires Valid()
      modifies this
      ensures Valid()
      ensures forall a, n: nat ::
                Item(allTxs, a, n) == if a == account && n < commitNonce then None else Item(old(allTxs), a, n)
    {
      hide Agree;
      if account !in allTxs {
        return;
      }
      AgreeLists(txHashMap, allTxs);
      var removed := Forward(allTxs[account], commitNonce, account);
      ForwardListed(allTxs[account], commitNonce, account, removed);
      var ok := CleanTxsByAccount(account, removed, now);
    }

    /** Collect the accounts marked empty for long enough. No lookup, by hash or by place, changes. */
    method HandleGcAccountEvent(now: int, cleanTimeout: int) returns (count: nat)
      requires Valid()
      modifies this`allTxs
      ensures Valid() && SameItems(old(allTxs), allTxs)
      ensures count == |old(allTxs)| - |allTxs|
      ensures forall a :: a in allTxs <==>
              a in old(allTxs) && !(old(allTxs)[a].empty && now - old(allTxs)[a].emptyTime > cleanTimeout)
    {
      var dirty: set<Address> := {};
      var todo := allTxs.Keys;
      while todo != {}
        invariant todo <= allTxs.Keys && allTxs == old(allTxs)
        invariant forall a :: a in dirty <==>
            a in allTxs && a !in todo && allTxs[a].empty && now - allTxs[a].emptyTime > cleanTimeout
        decreases |todo|
      {
        var a :| a in todo;
        todo := todo - {a};
        if allTxs[a].empty && now - allTxs[a].emptyTime > cleanTimeout {
          dirty := dirty + {a};
        }
      }
      CollectLists(allTxs, dirty);
      SameKeepsAgree(txHashMap, allTxs, allTxs - dirty);
      assert (allTxs - dirty).Keys == allTxs.Keys - dirty;
      allTxs := allTxs - dirty;
      count := |dirty|;
    }
  }

  predicate Listed(txs: seq<PoolTx>, n: nat) {
    exists i :: 0 <= i < |txs| && txs[i].nonce == n
  }

  lemma ListedNext(txs: seq<PoolTx>, i: nat)
    requires i < |txs|
    ensures forall n :: Listed(txs[..i + 1], n) <==> Listed(txs[..i], n) || n == txs[i].nonce
  {
    forall n ensures Listed(txs[..i + 1], n) <==> Listed(txs[..i], n) || n == txs[i].nonce {
      if Listed(txs[..i], n) {
        var k :| 0 <= k < i && txs[..i][k].nonce == n;
        assert txs[..i + 1][k].nonce == n;
      }
      if n == txs[i].nonce {
        assert txs[..i + 1][i].nonce == n;
      }
      if Listed(txs[..i + 1], n) && n != txs[i].nonce {
        var k :| 0 <= k < i + 1 && txs[..i + 1][k].nonce == n;
        assert txs[..i][k].nonce == n;
      }
    }
  }

  lemma ForwardListed(l: TxList, commitNonce: nat, a: Address, txs: seq<PoolTx>)
    requires l.Ok(a)
    requires forall i :: 0 <= i < |txs| ==> Get(l.items, txs[i].nonce) == Some(txs[i]) && txs[i].nonce < commitNonce
    requires forall n :: n in l.items && n < commitNonce ==> l.items[n] in txs
    ensures forall n: nat :: n in l.items ==> (Listed(txs, n) <==> n < commitNonce)
    ensures forall n: nat :: Listed(txs, n) ==> n in l.items
    ensures forall i :: 0 <= i < |txs| ==> txs[i].account == a
  {
    forall n: nat | n in l.items && n < commitNonce ensures Listed(txs, n) {
      var i :| 0 <= i < |txs| && txs[i] == l.items[n];
    }
  }

  lemma AgreeLists(hashes: Hashes, lists: Lists)
    requires Agree(hashes, lists)
    ensures ListsOk(lists)
  {
  }

  /** The pool does not know the hash, or knows it at the transaction's own place. */
  predicate AtHome(hashes: Hashes, tx: PoolTx) {
    tx.hash in hashes ==> hashes[tx.hash] == (tx.account, tx.nonce)
  }

  /** After a place is emptied, a hash is known exactly where it was known, and not at that place. */
  lemma HashAfterDelete(hashes: Hashes, lists: Lists, hashes': Hashes, lists': Lists, p: Ptr, h: Hash)
    requires Agree(hashes, lists) && Agree(hashes', lists') && SameBut(lists, lists', p) && Item(lists', p.0, p.1).None?
    ensures h in hashes' <==> h in hashes && hashes[h] != p
    ensures h in hashes' ==> hashes'[h] == hashes[h]
  {
    if h in hashes' {
      var q := hashes'[h];
      assert Holds(lists', q, h) && q == (q.0, q.1);
      assert Holds(lists, q, h);
    }
    if h in hashes && hashes[h] != p {
      var q := hashes[h];
      assert Holds(lists, q, h) && q == (q.0, q.1);
      assert Holds(lists', q, h);
    }
  }

  lemma ElsewhereDisagrees(hashes: Hashes, lists: Lists, p: Ptr, h: Hash)
    requires Holds(lists, p, h) && h in hashes && hashes[h] != p
    ensures !Agree(hashes, lists)
  {
  }

  /** The failing case: one hash at two places. */
  lemma OneHashTwoPlaces(h: Hash, a: Address, b: Address)
    requires a != b
    ensures var t, u := PoolTx(h, a, 0), PoolTx(h, b, 0);
            var lists := map[a := NEW_LIST.Put(t)];
            Agree(map[h := (a, 0)], lists) && !Agree(map[h := (a, 0)], lists[b := NEW_LIST.Put(u)])
  {
    var t, u := PoolTx(h, a, 0), PoolTx(h, b, 0);
    var lists := map[a := NEW_LIST.Put(t)];
    var lists' := lists[b := NEW_LIST.Put(u)];
    assert Holds(lists', (b, 0), h);
    ElsewhereDisagrees(map[h := (a, 0)], lists', (b, 0), h);
  }

  lemma SameButTrans(x: Lists, y: Lists, z: Lists, p: Ptr)
    requires SameBut(x, y, p) && SameBut(y, z, p)
    ensures SameBut(x, z, p)
  {
  }
}
