/** The flat snapshot of accounts and slots, with one undo journal per block. */
module FlatSnapshots {
  import opened Types
  import opened Accounts
  import opened Journal

  type SlotKey = (Address, Key)

  /** Empty and absent slot values are the same thing. */
  function Norm(v: Value): Value {
    if v == Some("") then None else v
  }

  /** Write slots in bulk; empty values erase. */
  function Overwrite(slots: map<SlotKey, Bytes>, w: map<SlotKey, Value>): (r: map<SlotKey, Bytes>)
    ensures forall p :: Get(r, p) == if p in w then Norm(w[p]) else Get(slots, p)
  {
    map p | p in slots.Keys + w.Keys && (p in w ==> Norm(w[p]).Some?) :: if p in w then w[p].value else slots[p]
  }

  function Tagged(a: Address, m: map<Key, Value>): (r: map<SlotKey, Value>)
    ensures forall p :: p in r <==> p.0 == a && p.1 in m
    ensures forall p :: p in r ==> r[p] == m[p.1]
  {
    map k | k in m :: (a, k) := m[k]
  }

  datatype Flat = Flat(accounts: map<Address, InnerAccount>, slots: map<SlotKey, Bytes>) {
    ghost predicate Normal() {
      forall p :: p in slots ==> slots[p] != ""
    }

    function PutAccount(a: Address, acc: Option<InnerAccount>): Flat {
      this.(accounts := if acc.Some? then accounts[a := acc.value] else accounts - {a})
    }
  }

  datatype Entry = Entry(address: Address, accountChanged: bool, prevAccount: Option<InnerAccount>,
      prevStates: map<Key, Value>)

  /** What one block does to the snapshot. */
  datatype BlockUpdate = BlockUpdate(
    journal: seq<Entry>,
    destructs: set<Address>,
    accounts: map<Address, InnerAccount>,
    storage: map<SlotKey, Value>)

  function Updated(f: Flat, u: BlockUpdate): Flat {
    Flat(f.accounts - u.destructs + u.accounts, Overwrite(f.slots, u.storage))
  }

  function RevertEntry(f: Flat, e: Entry): Flat {
    if !e.accountChanged then f
    else
      var g := f.PutAccount(e.address, e.prevAccount);
      g.(slots := Overwrite(g.slots, Tagged(e.address, e.prevStates)))
  }

  function RevertJournal(f: Flat, journal: seq<Entry>): Flat {
    if journal == [] then f
    else RevertEntry(RevertJournal(f, journal[..|journal| - 1]), journal[|journal| - 1])
  }

  // ---------------------------------------------------------------- one block

  predicate Mentions(e: Entry, a: Address) {
    e.accountChanged && e.address == a
  }

  /** The journal holds the block-start value of everything the block changes. */
  ghost predicate Faithful(f: Flat, u: BlockUpdate) {
    && (forall i :: 0 <= i < |u.journal| ==> FaithfulEntry(f, u.journal[i]))
    && (forall a :: a in u.destructs || a in u.accounts ==> Journaled(u, a))
    && (forall p :: p in u.storage && Norm(u.storage[p]) != Get(f.slots, p) ==> JournaledSlot(u, p))
  }

  ghost predicate FaithfulEntry(f: Flat, e: Entry) {
    && e.prevAccount == Get(f.accounts, e.address)
    && forall k :: k in e.prevStates ==> Norm(e.prevStates[k]) == Get(f.slots, (e.address, k))
  }

  ghost predicate Journaled(u: BlockUpdate, a: Address) {
    exists i :: 0 <= i < |u.journal| && Mentions(u.journal[i], a)
  }

  ghost predicate JournaledSlot(u: BlockUpdate, p: SlotKey) {
    exists i :: 0 <= i < |u.journal| && Mentions(u.journal[i], p.0) && p.1 in u.journal[i].prevStates
  }

  /** Reverting entries that all hold the values of f pulls their accounts back to f and leaves the rest. */
  lemma {:induction false} RevertPullsAccountBack(f: Flat, g: Flat, journal: seq<Entry>, a: Address)
    requires forall i :: 0 <= i < |journal| ==> FaithfulEntry(f, journal[i])
    ensures Get(RevertJournal(g, journal).accounts, a) ==
            if exists i :: 0 <= i < |journal| && Mentions(journal[i], a) then Get(f.accounts, a) else Get(g.accounts, a)
  {
    if journal != [] {
      var n := |journal| - 1;
      RevertPullsAccountBack(f, g, journal[..n], a);
      if exists i :: 0 <= i < n && Mentions(journal[i], a) {
        var i :| 0 <= i < n && Mentions(journal[i], a);
        assert Mentions(journal[..n][i], a);
      }
      assert FaithfulEntry(f, journal[n]);
    }
  }

  /** The same for slots. */
  lemma {:induction false} RevertPullsSlotBack(f: Flat, g: Flat, journal: seq<Entry>, p: SlotKey)
    requires forall i :: 0 <= i < |journal| ==> FaithfulEntry(f, journal[i])
    ensures Get(RevertJournal(g, journal).slots, p) ==
            if exists i :: 0 <= i < |journal| && Mentions(journal[i], p.0) && p.1 in journal[i].prevStates
            then Get(f.slots, p) else Get(g.slots, p)
  {
    if journal != [] {
      var n := |journal| - 1;
      RevertPullsSlotBack(f, g, journal[..n], p);
      if exists i :: 0 <= i < n && Mentions(journal[i], p.0) && p.1 in journal[i].prevStates {
        var i :| 0 <= i < n && Mentions(journal[i], p.0) && p.1 in journal[i].prevStates;
        assert Mentions(journal[..n][i], p.0);
      }
      assert FaithfulEntry(f, journal[n]);
    }
  }

  /** Reverting the journal of a block undoes the block exactly. */
  lemma RevertInvertsUpdate(f: Flat, u: BlockUpdate)
    requires f.Normal() && Faithful(f, u)
    ensures RevertJournal(Updated(f, u), u.journal) == f
  {
    var g := Updated(f, u);
    var r := RevertJournal(g, u.journal);
    forall a ensures Get(r.accounts, a) == Get(f.accounts, a) {
      RevertPullsAccountBack(f, g, u.journal, a);
      if a in u.destructs || a in u.accounts {
        assert Journaled(u, a);
      }
    }
    forall p ensures Get(r.slots, p) == Get(f.slots, p) {
      RevertPullsSlotBack(f, g, u.journal, p);
      if Get(g.slots, p) != Get(f.slots, p) {
        assert JournaledSlot(u, p);
      }
    }
    SameMap(r.accounts, f.accounts);
    SameMap(r.slots, f.slots);
  }

  // ---------------------------------------------------------------- what a block commits

  /** The comparison of axiom-kit: nothing written means nothing changed. */
  predicate InnerAccountChanged(origin: Option<InnerAccount>, dirty: Option<InnerAccount>) {
    dirty.Some? && origin != dirty
  }

  function OriginValue(s: Slots, k: Key): Value {
    if k in s.origin then s.origin[k] else None
  }

  function StateJournal(s: Slots): map<Key, Value> {
    map k | k in s.pending && Norm(OriginValue(s, k)) != Norm(s.pending[k]) :: OriginValue(s, k)
  }

  predicate Changed(acc: SimpleAccount) {
    InnerAccountChanged(acc.originAccount, acc.dirtyAccount) || StateJournal(acc.slots) != map[] || acc.selfDestructed
  }

  function AccountJournal(acc: SimpleAccount): Entry {
    Entry(acc.addr, Changed(acc), acc.originAccount, StateJournal(acc.slots))
  }

  function FlatOf(b: Backing): Flat {
    Flat(b.accounts, b.storage)
  }

  lemma AccountJournalIsFaithful(b: Backing, acc: SimpleAccount)
    requires acc.Ok(b) && FlatOf(b).Normal()
    ensures FaithfulEntry(FlatOf(b), AccountJournal(acc))
    ensures forall k :: k in acc.slots.pending && Norm(acc.slots.pending[k]) != b.Slot(acc.addr, k)
                        ==> k in AccountJournal(acc).prevStates
  {
  }

  /** The account's record was written and differs from the stored one, or it is destroyed, or some slot
      is about to change. */
  ghost predicate Differs(b: Backing, acc: SimpleAccount) {
    || (acc.dirtyAccount.Some? && acc.dirtyAccount != Get(b.accounts, acc.addr)) || acc.selfDestructed
    || exists k :: k in acc.slots.pending && Norm(acc.slots.pending[k]) != Norm(Get(b.storage, (acc.addr, k)))
  }

  /** An account counts as changed exactly when what it would store differs from what is stored. */
  lemma ChangedMeansDiffers(b: Backing, acc: SimpleAccount)
    requires acc.Ok(b)
    ensures Changed(acc) <==> Differs(b, acc)
  {
    forall k | k in acc.slots.pending ensures OriginValue(acc.slots, k) == Get(b.storage, (acc.addr, k)) {
    }
    if StateJournal(acc.slots) != map[] {
      var k :| k in StateJournal(acc.slots);
      assert k in acc.slots.pending && Norm(acc.slots.pending[k]) != Norm(Get(b.storage, (acc.addr, k)));
    }
    if k :| k in acc.slots.pending && Norm(acc.slots.pending[k]) != Norm(Get(b.storage, (acc.addr, k))) {
      assert k in StateJournal(acc.slots);
    }
  }

  /** Every changed account, and their journal entries in some order. */
  method CollectDirtyData(ghost b: Backing, accounts: AccountMap) returns (dirty: set<Address>, journal: seq<Entry>)
    requires AccountsOk(b, accounts)
    ensures forall a :: a in dirty <==> a in accounts && Differs(b, accounts[a])
    ensures forall a :: a in dirty <==> a in accounts && Changed(accounts[a])
    ensures forall i :: 0 <= i < |journal| ==>
            journal[i].address in dirty && journal[i] == AccountJournal(accounts[journal[i].address])
    ensures forall a :: a in dirty ==> AccountJournal(accounts[a]) in journal
  {
    hide SimpleAccount.Ok, Differs, StateJournal;
    forall a | a in accounts ensures Changed(accounts[a]) <==> Differs(b, accounts[a]) {
      ChangedMeansDiffers(b, accounts[a]);
    }
    dirty, journal := {}, [];
    var todo := accounts.Keys;
    while todo != {}
      invariant todo <= accounts.Keys
      invariant forall a :: a in dirty <==> a in accounts && a !in todo && Changed(accounts[a])
      invariant forall i :: 0 <= i < |journal| ==>
          journal[i].address in dirty && journal[i] == AccountJournal(accounts[journal[i].address])
      invariant forall a :: a in dirty ==> AccountJournal(accounts[a]) in journal
      decreases |todo|
    {
      var a :| a in todo;
      todo := todo - {a};
      if Changed(accounts[a]) {
        journal := journal + [AccountJournal(accounts[a])];
        dirty := dirty + {a};
      }
    }
  }

  /** First pass of Commit: the destroyed accounts, and the pending slots of the others. */
  method StorageSets(accounts: AccountMap, dirty: set<Address>)
    returns (destructs: set<Address>, storage: map<SlotKey, Value>)
    requires dirty <= accounts.Keys
    ensures forall a :: a in destructs <==> a in dirty && accounts[a].selfDestructed
    ensures forall p :: p in storage <==>
            p.0 in dirty && !accounts[p.0].selfDestructed && p.1 in accounts[p.0].slots.pending
    ensures forall p :: p in storage ==> storage[p] == accounts[p.0].slots.pending[p.1]
  {
    destructs, storage := {}, map[];
    var todo := dirty;
    while todo != {}
      invariant todo <= dirty
      invariant forall a :: a in destructs <==> a in dirty && a !in todo && accounts[a].selfDestructed
      invariant forall p :: p in storage <==>
                  p.0 in dirty && p.0 !in todo && !accounts[p.0].selfDestructed && p.1 in accounts[p.0].slots.pending
      invariant forall p :: p in storage ==> storage[p] == accounts[p.0].slots.pending[p.1]
      decreases |todo|
    {
      var a :| a in todo;
      todo := todo - {a};
      if accounts[a].selfDestructed {
        destructs := destructs + {a};
      } else {
        storage := storage + Tagged(a, accounts[a].slots.pending);
      }
    }
  }

  function WithRoot(inner: InnerAccount, a: Address, roots: map<Address, Hash>): InnerAccount {
    if a in roots then inner.(storageRoot := roots[a]) else inner
  }

  /** The record an account is committed with, after its storage trie got its new root. */
  function Committed(acc: SimpleAccount, a: Address, roots: map<Address, Hash>): Option<InnerAccount> {
    if acc.dirtyAccount.Some? then Some(WithRoot(acc.dirtyAccount.value, a, roots)) else None
  }

  /** Second pass of Commit: the records that changed, the destroyed accounts included. */
  method AccountSet(accounts: AccountMap, dirty: set<Address>, roots: map<Address, Hash>)
    returns (changed: map<Address, InnerAccount>)
    requires dirty <= accounts.Keys
    ensures forall a :: a in changed <==>
            a in dirty && InnerAccountChanged(accounts[a].originAccount, Committed(accounts[a], a, roots))
    ensures forall a :: a in changed ==> Some(changed[a]) == Committed(accounts[a], a, roots)
  {
    changed := map[];
    var todo := dirty;
    while todo != {}
      invariant todo <= dirty
      invariant forall a :: a in changed <==>
                  a in dirty && a !in todo && InnerAccountChanged(accounts[a].originAccount,
                      Committed(accounts[a], a, roots))
      invariant forall a :: a in changed ==> Some(changed[a]) == Committed(accounts[a], a, roots)
      decreases |todo|
    {
      var a :| a in todo;
      todo := todo - {a};
      var inner := Committed(accounts[a], a, roots);
      if InnerAccountChanged(accounts[a].originAccount, inner) {
        changed := changed[a := inner.value];
      }
    }
  }

  /** Two records agree in all but the storage root. */
  ghost predicate SameRecord(x: InnerAccount, y: InnerAccount) {
    x.balance == y.balance && x.nonce == y.nonce && x.codeHash == y.codeHash
  }

  /** What Commit hands to the snapshot. roots gives the new storage roots. The journal is faithful. After
      the update the snapshot answers for every account that survives what the account does, and for
      every account that is not loaded what it did. */
  method CommitSets(b: Backing, accounts: AccountMap, roots: map<Address, Hash>) returns (u: BlockUpdate)
    requires AccountsOk(b, accounts) && FlatOf(b).Normal()
    ensures Faithful(FlatOf(b), u)
    ensures forall a :: a in u.destructs <==> a in accounts && accounts[a].selfDestructed
    ensures forall a, k :: a in accounts && !accounts[a].selfDestructed ==>
              Get(Updated(FlatOf(b), u).slots, (a, k)) == Norm(accounts[a].slots.Committed(b, a, k))
    ensures forall a, k :: a in accounts && accounts[a].selfDestructed ==>
              Get(Updated(FlatOf(b), u).slots, (a, k)) == Get(b.storage, (a, k))
    ensures forall a :: a in accounts && !accounts[a].selfDestructed ==>
              RecordKept(b, accounts[a], Get(Updated(FlatOf(b), u).accounts, a))
    ensures forall a :: a in accounts && accounts[a].selfDestructed ==>
              RecordOfDestroyed(b, accounts[a], Get(roots, a), Get(Updated(FlatOf(b), u).accounts, a))
    ensures forall a :: a in u.accounts ==>
              && a in accounts && accounts[a].dirtyAccount.Some?
              && u.accounts[a].storageRoot == Get(roots, a).GetOr(accounts[a].dirtyAccount.value.storageRoot)
    ensures forall a :: a !in accounts ==> Get(Updated(FlatOf(b), u).accounts, a) == Get(b.accounts, a)
    ensures forall a, k :: a !in accounts ==> Get(Updated(FlatOf(b), u).slots, (a, k)) == Get(b.storage, (a, k))
  {
    hide RecordKept, RecordOfDestroyed, Faithful, StateJournal, Differs, Changed, SimpleAccount.Ok, Flat.Normal;
    var dirty, journal := CollectDirtyData(b, accounts);
    var destructs, storage := StorageSets(accounts, dirty);
    var changed := AccountSet(accounts, dirty, roots);
    u := BlockUpdate(journal, destructs, changed, storage);
    forall a | a in accounts ensures accounts[a].selfDestructed ==> a in dirty {
      DestroyedIsChanged(accounts[a]);
    }
    CommitIsFaithful(b, accounts, dirty, u);
    CommitPublishes(b, accounts, dirty, u);
    CommitRecords(b, accounts, roots, dirty, u);
  }

  /** A written record is stored but for its root; without one the stored record stays. */
  ghost predicate RecordKept(b: Backing, acc: SimpleAccount, r: Option<InnerAccount>) {
    && (acc.dirtyAccount.Some? ==> r.Some? && SameRecord(r.value, acc.Inner()))
    && (acc.dirtyAccount.None? ==> r == Get(b.accounts, acc.addr))
  }

  /** A destroyed account is gone exactly if it was not written, or written as it is stored. */
  ghost predicate RecordOfDestroyed(b: Backing, acc: SimpleAccount, root: Option<Hash>, r: Option<InnerAccount>) {
    var d := acc.dirtyAccount;
    && (r.None? <==>
        d.None? || Get(b.accounts, acc.addr) ==
        Some(d.value.(storageRoot := root.GetOr(d.value.storageRoot))))
    && (r.Some? ==> d.Some? && SameRecord(r.value, d.value))
  }

  /** The failing case: a stored account with a balance is destroyed, which empties it, and is stored again
      without one. */
  method DestroyedComesBack(a: Address, balance: int) returns (u: BlockUpdate)
    requires balance != 0
    ensures Get(Updated(Flat(map[a := InnerAccount(balance, 0, NoHash, "")], map[]), u).accounts, a) ==
            Some(InnerAccount(0, 0, NoHash, ""))
  {
    var b := Backing(map[a := InnerAccount(balance, 0, NoHash, "")], map[], map[]);
    var acc := b.Load(a).(selfDestructed := true, dirtyAccount := Some(InnerAccount(0, 0, NoHash, "")));
    u := CommitSets(b, map[a := acc], map[]);
    assert map[a := acc][a].selfDestructed;
  }

  lemma CommitRecords(b: Backing, accounts: AccountMap, roots: map<Address, Hash>, dirty: set<Address>, u: BlockUpdate)
    requires AccountsOk(b, accounts) && forall a :: a in dirty <==> a in accounts && Changed(accounts[a])
    requires forall a :: a in u.destructs <==> a in dirty && accounts[a].selfDestructed
    requires forall a :: a in u.accounts <==>
               a in dirty && InnerAccountChanged(accounts[a].originAccount, Committed(accounts[a], a, roots))
    requires forall a :: a in u.accounts ==> Some(u.accounts[a]) == Committed(accounts[a], a, roots)
    ensures forall a :: a in accounts && !accounts[a].selfDestructed ==>
              RecordKept(b, accounts[a], Get(Updated(FlatOf(b), u).accounts, a))
    ensures forall a :: a in accounts && accounts[a].selfDestructed ==>
              RecordOfDestroyed(b, accounts[a], Get(roots, a), Get(Updated(FlatOf(b), u).accounts, a))
    ensures forall a :: a in u.accounts ==>
              && a in accounts && accounts[a].dirtyAccount.Some?
              && u.accounts[a].storageRoot == Get(roots, a).GetOr(accounts[a].dirtyAccount.value.storageRoot)
    ensures forall a :: a !in accounts ==> Get(Updated(FlatOf(b), u).accounts, a) == Get(b.accounts, a)
  {
    hide Changed, InnerAccountChanged, Committed, RecordKept, RecordOfDestroyed, SimpleAccount.Ok;
    forall a | a in accounts ensures accounts[a].selfDestructed ==> a in dirty {
      DestroyedIsChanged(accounts[a]);
    }
    forall a | a in u.accounts ensures Committed(accounts[a], a, roots).Some? && accounts[a].dirtyAccount.Some?
      ensures u.accounts[a].storageRoot == Get(roots, a).GetOr(accounts[a].dirtyAccount.value.storageRoot)
    {
      CommittedRoot(accounts[a], a, roots);
    }
    forall a | a in accounts && !accounts[a].selfDestructed
      ensures RecordKept(b, accounts[a], Get(Updated(FlatOf(b), u).accounts, a))
    {
      KeepsRecord(b, accounts[a], roots, Get(Updated(FlatOf(b), u).accounts, a));
    }
    forall a | a in accounts && accounts[a].selfDestructed
      ensures RecordOfDestroyed(b, accounts[a], Get(roots, a), Get(Updated(FlatOf(b), u).accounts, a))
    {
      DestroysRecord(b, accounts[a], roots, Get(Updated(FlatOf(b), u).accounts, a));
    }
  }

  lemma DestroyedIsChanged(acc: SimpleAccount)
    ensures acc.selfDestructed ==> Changed(acc)
  {
  }

  lemma CommittedRoot(acc: SimpleAccount, a: Address, roots: map<Address, Hash>)
    ensures Committed(acc, a, roots).Some? <==> acc.dirtyAccount.Some?
    ensures acc.dirtyAccount.Some? ==>
              Committed(acc, a, roots).value.storageRoot == Get(roots, a).GetOr(acc.dirtyAccount.value.storageRoot)
  {
  }

  lemma KeepsRecord(b: Backing, acc: SimpleAccount, roots: map<Address, Hash>, r: Option<InnerAccount>)
    requires acc.Ok(b) && !acc.selfDestructed
    requires var now := Committed(acc, acc.addr, roots);
             r == if Changed(acc) && InnerAccountChanged(acc.originAccount, now) then now else Get(b.accounts, acc.addr)
    ensures RecordKept(b, acc, r)
  {
    hide StateJournal, Slots.Ok;
  }

  lemma DestroysRecord(b: Backing, acc: SimpleAccount, roots: map<Address, Hash>, r: Option<InnerAccount>)
    requires acc.Ok(b) && acc.selfDestructed
    requires var now := Committed(acc, acc.addr, roots);
             r == if InnerAccountChanged(acc.originAccount, now) then now else None
    ensures RecordOfDestroyed(b, acc, Get(roots, acc.addr), r)
  {
    hide StateJournal, Slots.Ok;
  }

  lemma CommitIsFaithful(b: Backing, accounts: AccountMap, dirty: set<Address>, u: BlockUpdate)
    requires AccountsOk(b, accounts) && FlatOf(b).Normal() && dirty <= accounts.Keys
    requires forall a :: a in dirty ==> Changed(accounts[a]) && AccountJournal(accounts[a]) in u.journal
    requires forall i :: 0 <= i < |u.journal| ==>
               u.journal[i].address in dirty && u.journal[i] == AccountJournal(accounts[u.journal[i].address])
    requires u.destructs <= dirty && u.accounts.Keys <= dirty
    requires forall p :: p in u.storage ==>
               p.0 in dirty && p.1 in accounts[p.0].slots.pending && u.storage[p] == accounts[p.0].slots.pending[p.1]
    ensures Faithful(FlatOf(b), u)
  {
    hide SimpleAccount.Ok, StateJournal, FaithfulEntry, Flat.Normal;
    forall i | 0 <= i < |u.journal| ensures FaithfulEntry(FlatOf(b), u.journal[i]) {
      AccountJournalIsFaithful(b, accounts[u.journal[i].address]);
    }
    forall a | a in dirty ensures Journaled(u, a) {
      var i :| 0 <= i < |u.journal| && u.journal[i] == AccountJournal(accounts[a]);
      assert Mentions(u.journal[i], a);
    }
    forall p | p in u.storage && Norm(u.storage[p]) != Get(b.storage, p) ensures JournaledSlot(u, p) {
      AccountJournalIsFaithful(b, accounts[p.0]);
      assert p == (p.0, p.1) && b.Slot(p.0, p.1) == Get(b.storage, p);
      var i :| 0 <= i < |u.journal| && u.journal[i] == AccountJournal(accounts[p.0]);
      assert Mentions(u.journal[i], p.0);
    }
  }

  lemma CommittedSlots(b: Backing, acc: SimpleAccount, k: Key)
    requires acc.Ok(b) && FlatOf(b).Normal()
    ensures k !in acc.slots.pending || !Changed(acc) ==>
            Norm(acc.slots.Committed(b, acc.addr, k)) == b.Slot(acc.addr, k)
  {
    if k in acc.slots.pending && !Changed(acc) {
      assert k !in StateJournal(acc.slots);
    }
  }

  lemma CommitPublishes(b: Backing, accounts: AccountMap, dirty: set<Address>, u: BlockUpdate)
    requires AccountsOk(b, accounts) && FlatOf(b).Normal()
    requires forall a :: a in dirty <==> a in accounts && Changed(accounts[a])
    requires forall p :: p in u.storage <==>
             p.0 in dirty && !accounts[p.0].selfDestructed && p.1 in accounts[p.0].slots.pending
    requires forall p :: p in u.storage ==> u.storage[p] == accounts[p.0].slots.pending[p.1]
    ensures forall a, k :: a in accounts && !accounts[a].selfDestructed ==>
              Get(Updated(FlatOf(b), u).slots, (a, k)) == Norm(accounts[a].slots.Committed(b, a, k))
    ensures forall a, k :: a !in accounts || accounts[a].selfDestructed ==>
              Get(Updated(FlatOf(b), u).slots, (a, k)) == Get(b.storage, (a, k))
  {
    hide SimpleAccount.Ok, StateJournal, Changed;
    forall a, k | a in accounts && !accounts[a].selfDestructed
      ensures Get(Updated(FlatOf(b), u).slots, (a, k)) == Norm(accounts[a].slots.Committed(b, a, k))
    {
      CommittedSlots(b, accounts[a], k);
      assert b.Slot(a, k) == Get(b.storage, (a, k));
    }
  }
}
