/** The snapshot on its key-value store: caches, write batches, block journals and rollback. */
module SnapshotStore {
  import opened Types
  import opened Accounts
  import opened Journal
  import opened FlatSnapshots

  datatype BatchOp =
    | PutAccount(address: Address, account: InnerAccount)
    | DeleteAccount(address: Address)
    | PutSlot(slot: SlotKey, value: Value)
    | DeleteSlot(slot: SlotKey)
    | PutJournal(height: nat, journal: seq<Entry>)
    | DeleteJournal(height: nat)
    | PutMin(height: nat)
    | PutMax(height: nat)

  datatype Store = Store(flat: Flat, journals: map<nat, seq<Entry>>, minHeight: Option<nat>, maxHeight: Option<nat>) {

    function Apply(op: BatchOp): Store {
      match op
      case PutAccount(a, acc) => this.(flat := flat.PutAccount(a, Some(acc)))
      case DeleteAccount(a) => this.(flat := flat.PutAccount(a, None))
      case PutSlot(p, v) => this.(flat := flat.(slots := SetSlot(flat.slots, p, v)))
      case DeleteSlot(p) => this.(flat := flat.(slots := SetSlot(flat.slots, p, None)))
      case PutJournal(h, j) => this.(journals := journals[h := j])
      case DeleteJournal(h) => this.(journals := journals - {h})
      case PutMin(h) => this.(minHeight := Some(h))
      case PutMax(h) => this.(maxHeight := Some(h))
    }

    /** A batch is applied in order, so the last write to a key wins. */
    function ApplyAll(ops: seq<BatchOp>): Store {
      if ops == [] then this else ApplyAll(ops[..|ops| - 1]).Apply(ops[|ops| - 1])
    }

    function Min(): nat { minHeight.GetOr(0) }

    function Max(): nat { maxHeight.GetOr(0) }

    /** A missing journal is skipped with a warning. */
    function JournalAt(h: nat): seq<Entry> {
      if h in journals then journals[h] else []
    }
  }

  /** Storing an empty value is erasing. */
  function SetSlot(slots: map<SlotKey, Bytes>, p: SlotKey, v: Value): map<SlotKey, Bytes> {
    if Norm(v).Some? then slots[p := v.value] else slots - {p}
  }

  lemma ApplyAllSnoc(s: Store, ops: seq<BatchOp>, op: BatchOp)
    ensures s.ApplyAll(ops + [op]) == s.ApplyAll(ops).Apply(op)
  {
    assert (ops + [op])[..|ops|] == ops;
  }

  lemma OverwriteKeepsNormal(f: Flat, w: map<SlotKey, Value>)
    requires f.Normal()
    ensures f.(slots := Overwrite(f.slots, w)).Normal()
  {
    forall p | p in Overwrite(f.slots, w) ensures Overwrite(f.slots, w)[p] != "" {
      assert Get(Overwrite(f.slots, w), p) == if p in w then Norm(w[p]) else Get(f.slots, p);
    }
  }

  /** The slots of one account are undone, except the keys still to do. */
  ghost predicate SlotsUndone(cur: map<SlotKey, Bytes>, slots: map<SlotKey, Bytes>, a: Address, prev: map<Key, Value>,
                              todo: set<Key>) {
    forall p :: Get(cur, p) == if p.0 == a && p.1 in prev && p.1 !in todo then Norm(prev[p.1]) else Get(slots, p)
  }

  lemma UndoOneSlot(cur: map<SlotKey, Bytes>, slots: map<SlotKey, Bytes>, a: Address, prev: map<Key, Value>,
                    todo: set<Key>, k: Key)
    requires k in todo && todo <= prev.Keys && SlotsUndone(cur, slots, a, prev, todo)
    ensures SlotsUndone(SetSlot(cur, (a, k), prev[k]), slots, a, prev, todo - {k})
  {
    var next := SetSlot(cur, (a, k), prev[k]);
    forall p
      ensures Get(next, p) == if p.0 == a && p.1 in prev
              && p.1 !in todo - {k} then Norm(prev[p.1]) else Get(slots, p)
    {
      assert Get(cur, p) == if p.0 == a && p.1 in prev && p.1 !in todo then Norm(prev[p.1]) else Get(slots, p);
    }
  }

  lemma AllSlotsUndone(cur: map<SlotKey, Bytes>, slots: map<SlotKey, Bytes>, a: Address, prev: map<Key, Value>)
    requires SlotsUndone(cur, slots, a, prev, {})
    ensures cur == Overwrite(slots, Tagged(a, prev))
  {
    SameMap(cur, Overwrite(slots, Tagged(a, prev)));
  }

  function WithSlots(s: Store, slots: map<SlotKey, Bytes>): Store {
    s.(flat := s.flat.(slots := slots))
  }

  method RevertStatesInto(s: Store, batch: seq<BatchOp>, a: Address, prev: map<Key, Value>) returns (next: seq<BatchOp>)
    ensures s.ApplyAll(next) == WithSlots(s.ApplyAll(batch), Overwrite(s.ApplyAll(batch).flat.slots, Tagged(a, prev)))
  {
    next := batch;
    ghost var slots := s.ApplyAll(batch).flat.slots;
    ghost var cur := slots;
    var todo := prev.Keys;
    while todo != {}
      invariant todo <= prev.Keys
      invariant SlotsUndone(cur, slots, a, prev, todo)
      invariant s.ApplyAll(next) == WithSlots(s.ApplyAll(batch), cur)
      decreases |todo|
    {
      var k :| k in todo;
      var op := if Norm(prev[k]).Some? then PutSlot((a, k), prev[k]) else DeleteSlot((a, k));
      UndoOneSlot(cur, slots, a, prev, todo, k);
      ApplyAllSnoc(s, next, op);
      next := next + [op];
      cur := SetSlot(cur, (a, k), prev[k]);
      todo := todo - {k};
    }
    AllSlotsUndone(cur, slots, a, prev);
  }

  /** Append the writes that undo one entry. */
  method RevertInto(s: Store, batch: seq<BatchOp>, entry: Entry) returns (next: seq<BatchOp>)
    ensures s.ApplyAll(next) == s.ApplyAll(batch).(flat := RevertEntry(s.ApplyAll(batch).flat, entry))
  {
    if !entry.accountChanged {
      return batch;
    }
    var a := entry.address;
    var op := if entry.prevAccount.Some? then PutAccount(a, entry.prevAccount.value) else DeleteAccount(a);
    ApplyAllSnoc(s, batch, op);
    next := RevertStatesInto(s, batch + [op], a, entry.prevStates);
  }

  method RevertJournalInto(s: Store, batch: seq<BatchOp>, journal: seq<Entry>) returns (next: seq<BatchOp>)
    ensures s.ApplyAll(next) == s.ApplyAll(batch).(flat := RevertJournal(s.ApplyAll(batch).flat, journal))
  {
    next := batch;
    for i := 0 to |journal|
      invariant s.ApplyAll(next) == s.ApplyAll(batch).(flat := RevertJournal(s.ApplyAll(batch).flat, journal[..i]))
    {
      next := RevertInto(s, next, journal[i]);
      assert journal[..i + 1][..i] == journal[..i];
    }
    assert journal[..|journal|] == journal;
  }

  function WithAccounts(s: Store, accounts: map<Address, InnerAccount>): Store {
    s.(flat := s.flat.(accounts := accounts))
  }

  method DestructsInto(s: Store, batch: seq<BatchOp>, destructs: set<Address>) returns (next: seq<BatchOp>)
    ensures s.ApplyAll(next) == WithAccounts(s.ApplyAll(batch), s.ApplyAll(batch).flat.accounts - destructs)
  {
    next := batch;
    ghost var accounts := s.ApplyAll(batch).flat.accounts;
    ghost var done: set<Address> := {};
    var todo := destructs;
    while todo != {}
      invariant todo + done == destructs
      invariant s.ApplyAll(next) == WithAccounts(s.ApplyAll(batch), accounts - done)
      decreases |todo|
    {
      var a :| a in todo;
      ApplyAllSnoc(s, next, DeleteAccount(a));
      next := next + [DeleteAccount(a)];
      assert accounts - done - {a} == accounts - (done + {a});
      todo, done := todo - {a}, done + {a};
    }
    assert done == destructs;
  }

  ghost predicate AccountsWritten(cur: map<Address, InnerAccount>, accounts: map<Address, InnerAccount>,
                                  w: map<Address, InnerAccount>, todo: set<Address>) {
    forall a :: Get(cur, a) == if a in w && a !in todo then Some(w[a]) else Get(accounts, a)
  }

  lemma NoAccountWritten(accounts: map<Address, InnerAccount>, w: map<Address, InnerAccount>)
    ensures AccountsWritten(accounts, accounts, w, w.Keys)
  {
  }

  lemma WriteOneAccount(cur: map<Address, InnerAccount>, accounts: map<Address, InnerAccount>,
                        w: map<Address, InnerAccount>, todo: set<Address>, a: Address)
    requires a in todo && todo <= w.Keys && AccountsWritten(cur, accounts, w, todo)
    ensures AccountsWritten(cur[a := w[a]], accounts, w, todo - {a})
  {
  }

  lemma AllAccountsWritten(cur: map<Address, InnerAccount>, accounts: map<Address, InnerAccount>,
                           w: map<Address, InnerAccount>)
    requires AccountsWritten(cur, accounts, w, {})
    ensures cur == accounts + w
  {
    SameMap(cur, accounts + w);
  }

  method AccountsInto(s: Store, batch: seq<BatchOp>, changed: map<Address, InnerAccount>) returns (next: seq<BatchOp>)
    ensures s.ApplyAll(next) == WithAccounts(s.ApplyAll(batch), s.ApplyAll(batch).flat.accounts + changed)
  {
    hide Store.ApplyAll, AccountsWritten;
    next := batch;
    ghost var accounts := s.ApplyAll(batch).flat.accounts;
    ghost var cur := accounts;
    var todo := changed.Keys;
    NoAccountWritten(accounts, changed);
    while todo != {}
      invariant todo <= changed.Keys
      invariant AccountsWritten(cur, accounts, changed, todo)
      invariant s.ApplyAll(next) == WithAccounts(s.ApplyAll(batch), cur)
      decreases |todo|
    {
      var a :| a in todo;
      WriteOneAccount(cur, accounts, changed, todo, a);
      ApplyAllSnoc(s, next, PutAccount(a, changed[a]));
      next := next + [PutAccount(a, changed[a])];
      cur := cur[a := changed[a]];
      todo := todo - {a};
    }
    AllAccountsWritten(cur, accounts, changed);
  }

  ghost predicate SlotsWritten(cur: map<SlotKey, Bytes>, slots: map<SlotKey, Bytes>, w: map<SlotKey, Value>,
                               todo: set<SlotKey>) {
    forall p :: Get(cur, p) == if p in w && p !in todo then Norm(w[p]) else Get(slots, p)
  }

  lemma WriteOneSlot(cur: map<SlotKey, Bytes>, slots: map<SlotKey, Bytes>, w: map<SlotKey, Value>, todo: set<SlotKey>,
                     q: SlotKey)
    requires q in todo && todo <= w.Keys && SlotsWritten(cur, slots, w, todo)
    ensures SlotsWritten(SetSlot(cur, q, w[q]), slots, w, todo - {q})
  {
    var next := SetSlot(cur, q, w[q]);
    forall p ensures Get(next, p) == if p in w && p !in todo - {q} then Norm(w[p]) else Get(slots, p) {
      assert Get(cur, p) == if p in w && p !in todo then Norm(w[p]) else Get(slots, p);
    }
  }

  lemma NoSlotWritten(slots: map<SlotKey, Bytes>, w: map<SlotKey, Value>)
    ensures SlotsWritten(slots, slots, w, w.Keys)
  {
  }

  lemma AllSlotsWritten(cur: map<SlotKey, Bytes>, slots: map<SlotKey, Bytes>, w: map<SlotKey, Value>)
    requires SlotsWritten(cur, slots, w, {})
    ensures cur == Overwrite(slots, w)
  {
    SameMap(cur, Overwrite(slots, w));
  }

  method StorageInto(s: Store, batch: seq<BatchOp>, storage: map<SlotKey, Value>) returns (next: seq<BatchOp>)
    ensures s.ApplyAll(next) == WithSlots(s.ApplyAll(batch), Overwrite(s.ApplyAll(batch).flat.slots, storage))
  {
    hide Store.ApplyAll, SlotsWritten, Overwrite;
    next := batch;
    ghost var slots := s.ApplyAll(batch).flat.slots;
    ghost var cur := slots;
    var todo := storage.Keys;
    NoSlotWritten(slots, storage);
    while todo != {}
      invariant todo <= storage.Keys
      invariant SlotsWritten(cur, slots, storage, todo)
      invariant s.ApplyAll(next) == WithSlots(s.ApplyAll(batch), cur)
      decreases |todo|
    {
      var p :| p in todo;
      WriteOneSlot(cur, slots, storage, todo, p);
      ApplyAllSnoc(s, next, PutSlot(p, storage[p]));
      next := next + [PutSlot(p, storage[p])];
      cur := SetSlot(cur, p, storage[p]);
      todo := todo - {p};
    }
    AllSlotsWritten(cur, slots, storage);
  }

  /** The whole batch of a block. */
  method BlockInto(s: Store, u: BlockUpdate, height: nat) returns (batch: seq<BatchOp>)
    ensures s.ApplyAll(batch) == Store(Updated(s.flat, u), s.journals[height := u.journal],
                                       if height == 0 then Some(0) else s.minHeight, Some(height))
  {
    batch := DestructsInto(s, [], u.destructs);
    batch := AccountsInto(s, batch, u.accounts);
    batch := StorageInto(s, batch, u.storage);
    ApplyAllSnoc(s, batch, PutJournal(height, u.journal));
    batch := batch + [PutJournal(height, u.journal)];
    ApplyAllSnoc(s, batch, PutMax(height));
    batch := batch + [PutMax(height)];
    if height == 0 {
      ApplyAllSnoc(s, batch, PutMin(0));
      batch := batch + [PutMin(0)];
    }
  }

  datatype Outcome = Done | RollbackToHigherNumber | RollbackTooMuch | RemoveJournalOutOfRange

  const MIN_PRESERVE_JOURNAL_NUMBER := 128

  /** Undoing the journal of block h + 1 leads from the contents at h + 1 to those at h. */
  ghost predicate Leads(s: Store, history: map<nat, Flat>, h: nat) {
    h in history && h + 1 in history && RevertJournal(history[h + 1], s.JournalAt(h + 1)) == history[h]
  }

  type AccountCache = map<Address, Option<InnerAccount>>
  type ContractCache = map<SlotKey, Value>

  /** What a cache still holds is what the store holds. */
  ghost predicate Coherent(f: Flat, accounts: AccountCache, slots: ContractCache) {
    && (forall a :: a in accounts ==> accounts[a] == Get(f.accounts, a))
    && (forall p :: p in slots ==> Norm(slots[p]) == Get(f.slots, p))
  }

  function AccountsCached(cache: AccountCache, u: BlockUpdate): AccountCache {
    cache - u.destructs + map a | a in u.accounts :: Some(u.accounts[a])
  }

  lemma CachesWrittenThrough(f: Flat, accounts: AccountCache, slots: ContractCache, u: BlockUpdate)
    requires Coherent(f, accounts, slots)
    ensures Coherent(Updated(f, u), AccountsCached(accounts, u), slots + u.storage)
  {
  }

  lemma LeadsAfterUpdate(s: Store, t: Store, history: map<nat, Flat>, next: map<nat, Flat>, u: BlockUpdate, height: nat)
    requires s.flat.Normal() && Faithful(s.flat, u)
    requires height > 0 ==> height == s.Max() + 1 && Get(history, s.Max()) == Some(s.flat)
    requires t.flat == Updated(s.flat, u) && t.journals == s.journals[height := u.journal]
    requires next == history[height := t.flat]
    requires forall h: nat :: s.Min() <= h < s.Max() ==> Leads(s, history, h)
    ensures forall h: nat :: s.Min() <= h < height ==> Leads(t, next, h)
  {
    forall h: nat | s.Min() <= h < height ensures Leads(t, next, h) {
      if h + 1 < height {
        assert Leads(s, history, h);
      } else {
        RevertInvertsUpdate(s.flat, u);
      }
    }
  }

  /** Undo the block at height i. */
  function RevertBlock(s: Store, i: nat): Store
    requires i > 0
  {
    s.(flat := RevertJournal(s.flat, s.JournalAt(i)), journals := s.journals - {i}, maxHeight := Some(i - 1))
  }

  method BlockRevertInto(s: Store, batch: seq<BatchOp>, i: nat) returns (next: seq<BatchOp>)
    requires i > 0 && s.ApplyAll(batch).JournalAt(i) == s.JournalAt(i)
    ensures s.ApplyAll(next) == RevertBlock(s.ApplyAll(batch), i)
  {
    next := RevertJournalInto(s, batch, s.JournalAt(i));
    ApplyAllSnoc(s, next, DeleteJournal(i));
    next := next + [DeleteJournal(i)];
    ApplyAllSnoc(s, next, PutMax(i - 1));
    next := next + [PutMax(i - 1)];
  }

  lemma RevertKeepsNormal(f: Flat, journal: seq<Entry>)
    requires f.Normal()
    ensures RevertJournal(f, journal).Normal()
  {
    if journal != [] {
      var n := |journal| - 1;
      RevertKeepsNormal(f, journal[..n]);
      var e := journal[n];
      OverwriteKeepsNormal(RevertJournal(f, journal[..n]).PutAccount(e.address, e.prevAccount),
          Tagged(e.address, e.prevStates));
    }
  }

  // ---------------------------------------------------------------- any number of blocks

  function Applied(s: Store, u: BlockUpdate): Store {
    Store(Updated(s.flat, u), s.journals[s.Max() + 1 := u.journal], s.minHeight, Some(s.Max() + 1))
  }

  function AppliedAll(s: Store, us: seq<BlockUpdate>): Store
    decreases |us|
  {
    if us == [] then s else AppliedAll(Applied(s, us[0]), us[1..])
  }

  /** Each block journals what it changes. */
  ghost predicate FaithfulRun(s: Store, us: seq<BlockUpdate>)
    decreases |us|
  {
    us != [] ==> Faithful(s.flat, us[0]) && FaithfulRun(Applied(s, us[0]), us[1..])
  }

  function RolledBack(s: Store, height: nat): Store
    decreases s.Max()
  {
    if s.Max() <= height then s else RolledBack(RevertBlock(s, s.Max()), height)
  }

  lemma {:induction false} RolledBackInTwo(s: Store, h: nat)
    requires s.Max() > h
    ensures RolledBack(s, h) == RolledBack(RolledBack(s, h + 1), h)
    decreases s.Max()
  {
    if s.Max() > h + 1 {
      RolledBackInTwo(RevertBlock(s, s.Max()), h);
    }
  }

  lemma RevertBlockInvertsApplied(s: Store, u: BlockUpdate)
    requires s.flat.Normal() && Faithful(s.flat, u)
    requires s.maxHeight.Some? && s.Max() + 1 !in s.journals
    ensures RevertBlock(Applied(s, u), s.Max() + 1) == s
    ensures Applied(s, u).flat.Normal()
  {
    RevertInvertsUpdate(s.flat, u);
    OverwriteKeepsNormal(s.flat, u.storage);
    assert s.journals[s.Max() + 1 := u.journal] - {s.Max() + 1} == s.journals;
  }

  lemma {:induction false} AppliedAllReaches(s: Store, us: seq<BlockUpdate>)
    ensures AppliedAll(s, us).Max() == s.Max() + |us|
    decreases |us|
  {
    if us != [] { AppliedAllReaches(Applied(s, us[0]), us[1..]); }
  }

  /** Rolling back any number of blocks gives back the store exactly as it was. */
  lemma {:induction false} RollbackInvertsUpdates(s: Store, us: seq<BlockUpdate>)
    requires s.flat.Normal() && FaithfulRun(s, us)
    requires s.maxHeight.Some? && forall h :: h in s.journals ==> h <= s.Max()
    ensures RolledBack(AppliedAll(s, us), s.Max()) == s
    decreases |us|
  {
    if us != [] {
      var t := Applied(s, us[0]);
      RevertBlockInvertsApplied(s, us[0]);
      RollbackInvertsUpdates(t, us[1..]);
      AppliedAllReaches(t, us[1..]);
      RolledBackInTwo(AppliedAll(t, us[1..]), s.Max());
    }
  }

  /** Committing the batch now would give the contents at height i, with everything below intact. */
  ghost predicate RollingBack(s: Store, batch: seq<BatchOp>, history: map<nat, Flat>, min: nat, i: nat) {
    var p := s.ApplyAll(batch);
    && p.flat.Normal() && Get(history, i) == Some(p.flat)
    && p.Max() == i && p.Min() == min
    && (forall h: nat :: min <= h < i ==> Leads(p, history, h))
    && (forall j: nat :: j <= i ==> p.JournalAt(j) == s.JournalAt(j))
  }

  lemma RollbackStep(s: Store, batch: seq<BatchOp>, next: seq<BatchOp>, history: map<nat, Flat>, min: nat, i: nat)
    requires RollingBack(s, batch, history, min, i) && min < i
    requires s.ApplyAll(next) == RevertBlock(s.ApplyAll(batch), i)
    ensures RollingBack(s, next, history, min, i - 1)
  {
    var p, q := s.ApplyAll(batch), s.ApplyAll(next);
    RevertKeepsNormal(p.flat, p.JournalAt(i));
    assert Leads(p, history, i - 1);
    forall h: nat | min <= h < i - 1 ensures Leads(q, history, h) {
      assert Leads(p, history, h);
    }
  }

  /** The journals from lo up to i are gone, the others are as they were. */
  ghost predicate Dropped(now: map<nat, seq<Entry>>, was: map<nat, seq<Entry>>, lo: nat, i: nat) {
    forall h: nat :: Get(now, h) == if lo <= h < i then None else Get(was, h)
  }

  lemma DropNext(now: map<nat, seq<Entry>>, was: map<nat, seq<Entry>>, lo: nat, i: nat)
    requires Dropped(now, was, lo, i) && lo <= i
    ensures Dropped(now - {i}, was, lo, i + 1)
  {
    var next := now - {i};
    forall h: nat ensures Get(next, h) == if lo <= h < i + 1 then None else Get(was, h) {
      assert Get(now, h) == if lo <= h < i then None else Get(was, h);
    }
  }

  method JournalDeletes(s: Store, lo: nat, height: nat) returns (batch: seq<BatchOp>)
    requires lo <= height
    ensures var p := s.ApplyAll(batch); p == s.(journals := p.journals) && Dropped(p.journals, s.journals, lo, height)
  {
    batch := [];
    for i := lo to height
      invariant var p := s.ApplyAll(batch); p == s.(journals := p.journals) && Dropped(p.journals, s.journals, lo, i)
    {
      hide Dropped;
      ApplyAllSnoc(s, batch, DeleteJournal(i));
      DropNext(s.ApplyAll(batch).journals, s.journals, lo, i);
      batch := batch + [DeleteJournal(i)];
    }
  }

  class Snapshot {
    var backend: Store
    /** The caches may forget entries at any time. */
    var accountCache: map<Address, Option<InnerAccount>>
    var contractCache: map<SlotKey, Value>
    /** The contents of the snapshot at each height it can still be rolled back to. */
    ghost var history: map<nat, Flat>

    ghost predicate Valid()
      reads this
    {
      && Coherent(backend.flat, accountCache, contractCache)
      && backend.flat.Normal()
      && backend.Min() <= backend.Max()
      && Get(history, backend.Max()) == Some(backend.flat)
      && (forall h: nat :: backend.Min() <= h < backend.Max() ==> Leads(backend, history, h))
    }

    constructor ()
      ensures Valid() && backend == Store(Flat(map[], map[]), map[], None, None)
    {
      backend := Store(Flat(map[], map[]), map[], None, None);
      accountCache, contractCache := map[], map[];
      history := map[0 := Flat(map[], map[])];
    }

    method Account(addr: Address) returns (acc: Option<InnerAccount>)
      requires Valid()
      modifies this`accountCache
      ensures Valid() && acc == Get(backend.flat.accounts, addr) && accountCache == old(accountCache)[addr := acc]
    {
      if addr in accountCache {
        return accountCache[addr];
      }
      acc := Get(backend.flat.accounts, addr);
      accountCache := accountCache[addr := acc];
    }

    method Storage(addr: Address, key: Key) returns (v: Value)
      requires Valid()
      modifies this`contractCache
      ensures Valid() && Norm(v) == Get(backend.flat.slots, (addr, key))
      ensures contractCache == old(contractCache)[(addr, key) := v]
    {
      if (addr, key) in contractCache {
        return contractCache[(addr, key)];
      }
      v := Get(backend.flat.slots, (addr, key));
      contractCache := contractCache[(addr, key) := v];
    }

    method Evict(accounts: set<Address>, slots: set<SlotKey>)
      requires Valid()
      modifies this`accountCache, this`contractCache
      ensures Valid()
      ensures accountCache == old(accountCache) - accounts && contractCache == old(contractCache) - slots
    {
      accountCache := accountCache - accounts;
      contractCache := contractCache - slots;
    }

    /** Take over one block. The caches are written through. */
    method Update(height: nat, u: BlockUpdate)
      requires Valid() && Faithful(backend.flat, u)
      requires if backend.maxHeight.None? then height == 0 else height == backend.Max() + 1
      modifies this
      ensures Valid() && backend.flat == Updated(old(backend.flat), u)
      ensures backend.Max() == height && backend.Min() == old(backend.Min())
      ensures history == old(history)[height := backend.flat]
      ensures forall a :: a in accountCache <==> (a in old(accountCache) && a !in u.destructs) || a in u.accounts
      ensures forall p :: p in contractCache <==> p in old(contractCache) || p in u.storage
    {
      accountCache := AccountsCached(accountCache, u);
      contractCache := contractCache + u.storage;
      var batch := BlockInto(backend, u, height);
      CachesWrittenThrough(backend.flat, old(accountCache), old(contractCache), u);
      OverwriteKeepsNormal(backend.flat, u.storage);
      ghost var next := history[height := backend.ApplyAll(batch).flat];
      LeadsAfterUpdate(backend, backend.ApplyAll(batch), history, next, u, height);
      backend, history := backend.ApplyAll(batch), next;
    }

    /** Undo blocks until the given height. The journals are read from the store while the undoing
        writes pile up in a batch, which is committed whenever it has grown too large. */
    method Rollback(height: nat, tooLarge: seq<BatchOp> -> bool) returns (r: Outcome)
      requires Valid()
      modifies this
      ensures Valid() && history == old(history)
      ensures r == if old(backend.Max()) < height then RollbackToHigherNumber
                   else if old(backend.Min()) > height then RollbackTooMuch else Done
      ensures r.Done? ==>
              Some(backend.flat) == Get(history, height) && backend.Max() == height
              && backend.Min() == old(backend.Min())
      ensures !r.Done? ==> backend == old(backend)
    {
      contractCache, accountCache := map[], map[];
      var minHeight, maxHeight := backend.Min(), backend.Max();
      if maxHeight < height {
        return RollbackToHigherNumber;
      }
      if minHeight > height {
        return RollbackTooMuch;
      }
      if maxHeight == height {
        return Done;
      }
      var batch: seq<BatchOp> := [];
      var i := maxHeight;
      while i > height
        invariant height <= i <= maxHeight
        invariant accountCache == map[] && contractCache == map[] && history == old(history)
        invariant RollingBack(backend, batch, history, minHeight, i)
      {
        var next := BlockRevertInto(backend, batch, i);
        RollbackStep(backend, batch, next, history, minHeight, i);
        batch := next;
        i := i - 1;
        if tooLarge(batch) {
          backend := backend.ApplyAll(batch);
          batch := [];
        }
      }
      backend := backend.ApplyAll(batch);
      return Done;
    }

    /** Forget the journals below the given height. Too few of them are left alone. */
    method RemoveJournalsBeforeBlock(height: nat) returns (r: Outcome)
      requires Valid()
      modifies this`backend
      ensures Valid() && backend.flat == old(backend.flat) && backend.Max() == old(backend.Max())
      ensures r == if height > old(backend.Max()) then RemoveJournalOutOfRange else Done
      ensures backend.Min() == if height <= old(backend.Max())
              && height >= old(backend.Min()) + MIN_PRESERVE_JOURNAL_NUMBER
                               then height else old(backend.Min())
      ensures forall h: nat :: Get(backend.journals, h) ==
                if old(backend.Min()) <= h < backend.Min() then None else Get(old(backend.journals), h)
    {
      var minHeight, maxHeight := backend.Min(), backend.Max();
      if height > maxHeight {
        return RemoveJournalOutOfRange;
      }
      if height < minHeight + MIN_PRESERVE_JOURNAL_NUMBER {
        return Done;
      }
      var batch := JournalDeletes(backend, minHeight, height);
      ApplyAllSnoc(backend, batch, PutMin(height));
      batch := batch + [PutMin(height)];
      forall h: nat | height <= h < maxHeight ensures Leads(backend.ApplyAll(batch), history, h) {
        assert Leads(backend, history, h);
        var next: nat := h + 1;
        assert Get(backend.ApplyAll(batch).journals, next) == Get(backend.journals, next);
      }
      backend := backend.ApplyAll(batch);
      return Done;
    }
  }
}
