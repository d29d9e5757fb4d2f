/** The price heap over the accounts' next transactions. */
module PriceQueues {
  import opened Types
  import opened Heaps
  import opened NonceQueues

  /** A higher price goes first; at equal prices the earlier timestamp does. */
  predicate Pricier(a: Tx, b: Tx) {
    if a.gasPrice == b.gasPrice then a.timestamp < b.timestamp else a.gasPrice > b.gasPrice
  }

  lemma PricierIsOrdered()
    ensures Ordered(Pricier)
  {
  }

  /** t has the higher price, or the same and is not later. */
  ghost predicate Outranks(t: Tx, u: Tx) {
    u.gasPrice <= t.gasPrice && (u.gasPrice == t.gasPrice ==> t.timestamp <= u.timestamp)
  }

  lemma NotPricier(t: Tx, u: Tx)
    ensures Outranks(t, u) <==> !Pricier(u, t)
  {
  }

  /** The heap entries are exactly the accounts' current transactions, once each. */
  ghost predicate Mirrors(priced: multiset<Tx>, dirty: map<Address, Tx>) {
    forall t :: priced[t] == if Get(dirty, t.account) == Some(t) then 1 else 0
  }

  ghost predicate Filed(dirty: map<Address, Tx>) {
    forall a :: a in dirty ==> dirty[a].account == a
  }

  lemma MirrorAdd(priced: multiset<Tx>, dirty: map<Address, Tx>, tx: Tx)
    requires Mirrors(priced, dirty) && Filed(dirty) && tx.account !in dirty
    ensures Mirrors(priced + multiset{tx}, dirty[tx.account := tx]) && Filed(dirty[tx.account := tx])
  {
  }

  lemma MirrorDrop(priced: multiset<Tx>, dirty: map<Address, Tx>, tx: Tx)
    requires Mirrors(priced + multiset{tx}, dirty) && Filed(dirty)
    ensures tx.account in dirty && dirty[tx.account] == tx
    ensures Mirrors(priced, dirty - {tx.account}) && Filed(dirty - {tx.account})
  {
    var all := priced + multiset{tx};
    assert all[tx] == priced[tx] + 1;
    forall t ensures priced[t] == if Get(dirty - {tx.account}, t.account) == Some(t) then 1 else 0 {
      assert all[t] == if Get(dirty, t.account) == Some(t) then 1 else 0;
    }
  }

  lemma Mirrored(priced: seq<Tx>, dirty: map<Address, Tx>, tx: Tx)
    requires Mirrors(multiset(priced), dirty)
    ensures tx in priced <==> Get(dirty, tx.account) == Some(tx)
  {
    assert tx in multiset(priced) <==> multiset(priced)[tx] > 0;
  }

  lemma BestOfAll(priced: seq<Tx>, dirty: map<Address, Tx>)
    requires Mirrors(multiset(priced), dirty) && Filed(dirty) && IsHeap(priced, Pricier) && priced != []
    ensures forall a :: a in dirty ==> dirty[a].gasPrice <= priced[0].gasPrice
    ensures forall a :: a in dirty && dirty[a].gasPrice == priced[0].gasPrice ==>
              priced[0].timestamp <= dirty[a].timestamp
  {
    PricierIsOrdered();
    forall a | a in dirty ensures Outranks(priced[0], dirty[a]) {
      Mirrored(priced, dirty, dirty[a]);
      var i :| 0 <= i < |priced| && priced[i] == dirty[a];
      TopIsLeast(priced, Pricier, i);
      NotPricier(priced[0], dirty[a]);
    }
  }

  /** The accounts' current transactions after one more is offered: an older one of its account stays. */
  function Offered(dirty: map<Address, Tx>, tx: Tx): map<Address, Tx> {
    if tx.account in dirty && dirty[tx.account].nonce < tx.nonce then dirty else dirty[tx.account := tx]
  }

  class PriceQueue {
    var priced: seq<Tx>
    var dirtyAccounts: map<Address, Tx>

    ghost predicate Valid()
      reads this
    {
      IsHeap(priced, Pricier) && Mirrors(multiset(priced), dirtyAccounts) && Filed(dirtyAccounts)
    }

    constructor ()
      ensures Valid() && dirtyAccounts == map[]
    {
      priced, dirtyAccounts := [], map[];
    }

    /** Find an entry by identity and remove it. */
    method RemovePriced(tx: Tx) returns (removed: bool)
      requires IsHeap(priced, Pricier)
      modifies this`priced
      ensures IsHeap(priced, Pricier) && removed == (tx in old(priced))
      ensures removed ==> multiset(priced) + multiset{tx} == multiset(old(priced))
      ensures !removed ==> priced == old(priced)
    {
      for i := 0 to |priced|
        invariant priced == old(priced) && tx !in priced[..i]
      {
        if priced[i] == tx {
          PricierIsOrdered();
          priced := Heaps.Remove(priced, Pricier, i, tx);
          return true;
        }
      }
      return false;
    }

    method Push(tx: Tx)
      requires Valid()
      modifies this
      ensures Valid()
      ensures dirtyAccounts == Offered(old(dirtyAccounts), tx)
    {
      hide Mirrors, Filed, IsHeap;
      var from := tx.account;
      PricierIsOrdered();
      ghost var others := dirtyAccounts - {from};
      if from in dirtyAccounts {
        var oldTx := dirtyAccounts[from];
        if oldTx.nonce < tx.nonce {
          return;
        }
        DirtyIsFiled(dirtyAccounts, from);
        Mirrored(priced, dirtyAccounts, oldTx);
        var removed := RemovePriced(oldTx);
        MirrorDrop(multiset(priced), dirtyAccounts, oldTx);
      } else {
        assert others == dirtyAccounts;
      }
      MirrorAdd(multiset(priced), others, tx);
      assert others[from := tx] == dirtyAccounts[from := tx];
      dirtyAccounts := dirtyAccounts[from := tx];
      priced := Heaps.Push(priced, Pricier, tx);
    }

    method Pop() returns (tx: Option<Tx>)
      requires Valid()
      modifies this
      ensures Valid()
      ensures old(priced) == [] ==> tx.None? && dirtyAccounts == old(dirtyAccounts)
      ensures old(priced) != [] ==> tx == Some(old(priced)[0]) && Get(old(dirtyAccounts), tx.value.account) == tx
                                    && dirtyAccounts == old(dirtyAccounts) - {tx.value.account}
                                        && |priced| == |old(priced)| - 1
    {
      if |priced| == 0 {
        return None;
      }
      PricierIsOrdered();
      var top;
      top, priced := Heaps.Pop(priced, Pricier);
      MirrorDrop(multiset(priced), dirtyAccounts, top);
      dirtyAccounts := dirtyAccounts - {top.account};
      return Some(top);
    }

    /** Drop an account's entry of the given nonce. Heap and map stay in step exactly when the entry of
        that nonce, if any, is the very object given: the map is searched by nonce, the heap by object. */
    method Remove(tx: Tx) returns (removed: bool)
      requires Valid()
      modifies this
      ensures removed == (Get(old(dirtyAccounts), tx.account) == Some(tx))
      ensures dirtyAccounts == if Named(old(dirtyAccounts), tx) then old(dirtyAccounts) - {tx.account}
              else old(dirtyAccounts)
      ensures Valid() <==> (Named(old(dirtyAccounts), tx) ==> removed)
    {
      var from := tx.account;
      if from !in dirtyAccounts || dirtyAccounts[from].nonce != tx.nonce {
        return false;
      }
      Mirrored(priced, dirtyAccounts, tx);
      removed := RemovePriced(tx);
      if removed {
        MirrorDrop(multiset(priced), dirtyAccounts, tx);
      } else {
        MirrorBroken(multiset(priced), dirtyAccounts, from);
      }
      dirtyAccounts := dirtyAccounts - {from};
    }
  }

  /** The account's current transaction has the given one's nonce. */
  predicate Named(dirty: map<Address, Tx>, tx: Tx) {
    tx.account in dirty && dirty[tx.account].nonce == tx.nonce
  }

  lemma MirrorBroken(priced: multiset<Tx>, dirty: map<Address, Tx>, a: Address)
    requires Mirrors(priced, dirty) && Filed(dirty) && a in dirty
    ensures !Mirrors(priced, dirty - {a})
  {
    assert priced[dirty[a]] == 1;
  }

  lemma DirtyIsFiled(dirty: map<Address, Tx>, a: Address)
    requires Filed(dirty) && a in dirty
    ensures dirty[a].account == a
  {
  }
}
