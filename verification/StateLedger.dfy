/** The mutable state ledger: each call is proved to take the step the journal model says it takes. */
module StateLedgers {
  import opened Types
  import opened Accounts
  import opened AccessLists
  import opened Journal
  import opened Revisions
  import opened Readings

  /** How many entries of the journal dirty an account. */
  function Dirtying(changes: seq<Change>, a: Address): nat {
    if changes == [] then 0
    else
      var last := |changes| - 1;
      Dirtying(changes[..last], a) + if changes[last].Dirtied() == Some(a) then 1 else 0
  }

  /** The dirties map counts exactly, and drops accounts whose count is zero. */
  ghost predicate Counts(dirties: map<Address, nat>, changes: seq<Change>) {
    forall a :: Get(dirties, a) == if Dirtying(changes, a) == 0 then None else Some(Dirtying(changes, a))
  }

  class StateChanger {
    var changes: seq<Change>
    var dirties: map<Address, nat>

    ghost predicate Valid()
      reads this
    {
      Counts(dirties, changes)
    }

    constructor ()
      ensures Valid() && changes == []
    {
      changes, dirties := [], map[];
    }

    method Append(change: Change)
      requires Valid()
      modifies this
      ensures Valid() && changes == old(changes) + [change]
    {
      changes := changes + [change];
      var addr := change.Dirtied();
      if addr.Some? {
        dirties := dirties[addr.value := Get(dirties, addr.value).GetOr(0) + 1];
      }
      assert changes[..|changes| - 1] == old(changes);
    }

    /** Drop the last entry, which has just been undone. */
    method Pop()
      requires Valid() && changes != []
      modifies this
      ensures Valid() && changes == old(changes)[..|old(changes)| - 1]
    {
      var last := |changes| - 1;
      var addr := changes[last].Dirtied();
      if addr.Some? {
        assert Get(dirties, addr.value).Some?;
        dirties := dirties[addr.value := dirties[addr.value] - 1];
        if dirties[addr.value] == 0 {
          dirties := dirties - {addr.value};
        }
      }
      changes := changes[..last];
      forall a ensures Get(dirties, a) == if Dirtying(changes, a) == 0 then None else Some(Dirtying(changes, a)) {
        assert Get(old(dirties), a) == if Dirtying(old(changes), a) == 0 then None else Some(Dirtying(old(changes), a));
      }
    }
  }

  class StateLedger {
    const backing: Backing
    const changer: StateChanger
    const accessList: AccessList
    var accounts: AccountMap
    var transientStorage: Transients
    var refund: uint64
    var logs: map<Hash, seq<Log>>
    var logSize: nat
    var preimages: map<Hash, Bytes>
    var validRevisions: seq<Revision>
    var nextRevisionId: nat

    ghost function State(): Core
      reads this, accessList
    {
      Core(accounts, transientStorage, World(refund, logs, logSize, preimages, accessList.Model()))
    }

    ghost function Model(): Ledger
      reads this, changer, accessList
    {
      Ledger(State(), changer.changes, validRevisions, nextRevisionId)
    }

    ghost predicate Valid()
      reads this, changer, accessList
    {
      changer.Valid() && Model().Valid(backing)
    }

    constructor (backing: Backing)
      requires backing.Ok()
      ensures Valid() && Model() == EMPTY_LEDGER && this.backing == backing
      ensures fresh(changer) && fresh(accessList)
    {
      this.backing := backing;
      changer := new StateChanger();
      accessList := new AccessList();
      accounts, transientStorage := map[], Transients(map[]);
      refund, logs, logSize, preimages := 0, map[], 0, map[];
      validRevisions, nextRevisionId := [], 0;
      new;
      EmptyLedgerIsValid(backing);
    }

    /** What the account at an address reads like. */
    ghost function Account(a: Address): Option<Reading>
      reads this
    {
      AccountAt(backing, accounts, a)
    }

    /** Refund, logs, preimages, access list and transient storage. */
    ghost function Rest(): (World, Transients)
      reads this, accessList
    {
      (State().world, transientStorage)
    }

    method GetOrCreateAccount(addr: Address)
      requires Valid()
      modifies this, changer
      ensures Valid() && Model() == old(Model()).Touch(backing, addr)
      ensures addr in accounts && accounts[addr] == old(Peek(backing, accounts, addr).GetOr(NewAccount(addr)))
      ensures NowReads(backing, old(accounts), accounts, addr, old(Account(addr)).GetOr(NEW_READING))
      ensures Rest() == old(Rest())
    {
      hide Ledger.Valid, NowReads;
      ValidIsOk(backing, Model());
      FetchReads(backing, Model(), addr);
      TouchKeepsValid(backing, Model(), addr);
      if addr !in accounts {
        if addr in backing.accounts {
          accounts := accounts[addr := backing.Load(addr)];
        } else {
          changer.Append(CreateObject(addr));
          accounts := accounts[addr := NewAccount(addr)];
        }
      }
    }

    /** Append the entry of an account write, then write. */
    method Update(addr: Address, w: AccountWrite)
      requires Valid() && addr in accounts
      modifies this, changer
      ensures Valid() && Model() == old(Model()).Write(backing, Journal.Update(addr, w)) && addr in accounts
    {
      hide Ledger.Valid;
      WriteKeepsValid(backing, Model(), Journal.Update(addr, w));
      changer.Append(OnAccount(addr, accounts[addr].Record(backing, w)));
      accounts := accounts[addr := accounts[addr].Apply(backing, w)];
    }

    /** Fetch an account and write it. */
    method Put(addr: Address, w: AccountWrite)
      requires Valid()
      modifies this, changer
      ensures Valid() && Model() == old(Model()).Touch(backing, addr).Write(backing, Journal.Update(addr, w))
      ensures addr in accounts
    {
      GetOrCreateAccount(addr);
      Update(addr, w);
    }

    method SetBalance(addr: Address, value: int)
      requires Valid()
      modifies this, changer
      ensures Valid()
      ensures Model() == old(Model()).Touch(backing, addr).Write(backing,
              Journal.Update(addr, Accounts.SetBalance(value)))
      ensures NowReads(backing, old(accounts), accounts, addr, old(Account(addr)).GetOr(NEW_READING).(balance := value))
      ensures Rest() == old(Rest())
    {
      hide NowReads, Ledger.Valid, Ledger.Touch, Ledger.Write, AccountAt;
      FetchAndUpdateReads(backing, Model(), addr, Accounts.SetBalance(value));
      Put(addr, Accounts.SetBalance(value));
    }

    method GetBalance(addr: Address) returns (value: int)
      requires Valid()
      modifies this, changer
      ensures Valid() && Model() == old(Model()).Touch(backing, addr)
      ensures value == old(Account(addr)).GetOr(NEW_READING).balance
      ensures NowReads(backing, old(accounts), accounts, addr, old(Account(addr)).GetOr(NEW_READING))
      ensures Rest() == old(Rest())
    {
      hide Ledger.Valid, NowReads;
      GetOrCreateAccount(addr);
      value := accounts[addr].Inner().balance;
    }

    /** A withdrawal from an empty account, or of nothing, leaves no entry. */
    method SubBalance(addr: Address, value: int)
      requires Valid()
      modifies this, changer
      ensures Valid()
      ensures var acc := old(Peek(backing, accounts, addr).GetOr(NewAccount(addr)));
              var w := Accounts.SetBalance(acc.Inner().balance - value);
              && (acc.IsEmpty(backing) || value == 0 ==> Model() == old(Model()).Touch(backing, addr))
              && (!acc.IsEmpty(backing) && value != 0 ==>
                    Model() == old(Model()).Touch(backing, addr).Write(backing, Journal.Update(addr, w)))
      ensures var was := old(Account(addr)).GetOr(NEW_READING);
              var empty := was.balance == 0 && was.nonce == 0 && was.code.None? && !was.destroyed;
              NowReads(backing, old(accounts), accounts, addr,
                       if empty then was else was.(balance := was.balance - value))
      ensures Rest() == old(Rest())
    {
      hide Ledger.Valid, NowReads, Ledger.Touch, Ledger.Write;
      ghost var was := old(Account(addr)).GetOr(NEW_READING);
      ValidIsOk(backing, Model());
      FetchReads(backing, Model(), addr);
      FetchAndUpdateReads(backing, Model(), addr, Accounts.SetBalance(was.balance - value));
      GetOrCreateAccount(addr);
      var acc := accounts[addr];
      assert View(backing, acc) == was;
      assert was.(balance := was.balance - 0) == was;
      if !acc.IsEmpty(backing) && value != 0 {
        Update(addr, Accounts.SetBalance(acc.Inner().balance - value));
      }
    }

    method SetNonce(addr: Address, nonce: uint64)
      requires Valid()
      modifies this, changer
      ensures Valid()
      ensures Model() == old(Model()).Touch(backing, addr).Write(backing,
              Journal.Update(addr, Accounts.SetNonce(nonce)))
      ensures NowReads(backing, old(accounts), accounts, addr, old(Account(addr)).GetOr(NEW_READING).(nonce := nonce))
      ensures Rest() == old(Rest())
    {
      hide NowReads, Ledger.Valid, Ledger.Touch, Ledger.Write, AccountAt;
      FetchAndUpdateReads(backing, Model(), addr, Accounts.SetNonce(nonce));
      Put(addr, Accounts.SetNonce(nonce));
    }

    /** The code reads back exactly if it is not nil or there is no stored code: nil lets the stored
        code shine through. The hash is that of the given code. */
    method SetCode(addr: Address, code: Option<Bytes>)
      requires Valid()
      modifies this, changer
      ensures Valid()
      ensures Model() == old(Model()).Touch(backing, addr).Write(backing, Journal.Update(addr, Accounts.SetCode(code)))
      ensures var now := if code.Some? then code else backing.OriginCode(addr);
              var was := old(Account(addr)).GetOr(NEW_READING);
              NowReads(backing, old(accounts), accounts, addr, was.(code := now, codeHash := Keccak(code.GetOr([]))))
      ensures Rest() == old(Rest())
    {
      hide NowReads, Ledger.Valid, Ledger.Touch, Ledger.Write, AccountAt, Backing.OriginCode;
      FetchAndUpdateReads(backing, Model(), addr, Accounts.SetCode(code));
      Put(addr, Accounts.SetCode(code));
    }

    method GetState(addr: Address, key: Key) returns (value: Value)
      requires Valid()
      modifies this, changer
      ensures Valid() && Model() == old(Model()).Touch(backing, addr).Cache(backing, addr, key)
      ensures value == old(SlotAt(backing, accounts, addr, key))
      ensures NowReads(backing, old(accounts), accounts, addr, old(Account(addr)).GetOr(NEW_READING))
      ensures Rest() == old(Rest())
    {
      hide NowReads, Ledger.Valid, Ledger.Touch, Slots.Cached;
      ghost var was := old(Account(addr)).GetOr(NEW_READING);
      GetOrCreateAccount(addr);
      Reads(backing, old(accounts), accounts, addr, was);
      CacheKeepsValid(backing, Model(), addr, key);
      ValidIsOk(backing, Model());
      CacheReads(backing, Model(), addr, key);
      ReadsTrans(backing, old(accounts), accounts, Model().Cache(backing, addr, key).core.accounts, addr, was, was);
      var acc := accounts[addr];
      value := acc.slots.Current(backing, addr, key);
      accounts := accounts[addr := acc.(slots := acc.slots.Cached(backing, addr, key))];
    }

    method SetState(addr: Address, key: Key, value: Value)
      requires Valid()
      modifies this, changer
      ensures Valid()
      ensures Model() == old(Model()).Touch(backing, addr).Write(backing,
              Journal.Update(addr, Accounts.SetState(key, value)))
      ensures NowReadsSlot(backing, old(accounts), accounts, addr, key, value)
      ensures Rest() == old(Rest())
    {
      hide NowReadsSlot, Ledger.Valid, Ledger.Touch, Ledger.Write, AccountAt;
      FetchAndUpdateReads(backing, Model(), addr, Accounts.SetState(key, value));
      Put(addr, Accounts.SetState(key, value));
    }

    method SelfDestruct(addr: Address)
      requires Valid()
      modifies this, changer
      ensures Valid()
      ensures Model() == old(Model()).Touch(backing, addr).Write(backing, Journal.Update(addr, Destruct))
                                     .Write(backing, Journal.Update(addr, Accounts.SetBalance(0)))
      ensures NowReads(backing, old(accounts), accounts, addr,
                       old(Account(addr)).GetOr(NEW_READING).(destroyed := true, balance := 0))
      ensures Rest() == old(Rest())
    {
      hide NowReads, Ledger.Valid, Ledger.Touch, Ledger.Write, AccountAt;
      ghost var was := old(Account(addr)).GetOr(NEW_READING);
      FetchAndUpdateReads(backing, Model(), addr, Destruct);
      Put(addr, Destruct);
      ghost var mid := accounts;
      Reads(backing, old(accounts), mid, addr, was.(destroyed := true));
      ValidIsOk(backing, Model());
      UpdateReads(backing, Model(), addr, Accounts.SetBalance(0));
      Update(addr, Accounts.SetBalance(0));
      ReadsTrans(backing, old(accounts), mid, accounts, addr, was.(destroyed := true),
                 was.(destroyed := true, balance := 0));
    }

    method AddRefund(gas: uint64)
      requires Valid()
      modifies this, changer
      ensures Valid()
      ensures Model() == old(Model()).Write(backing, SetRefund((old(refund) + gas) % (MAX_UINT64 + 1)))
      ensures refund == (old(refund) + gas) % (MAX_UINT64 + 1) && accounts == old(accounts)
      ensures Rest() == (old(State().world).(refund := refund), old(transientStorage))
    {
      hide Ledger.Valid;
      WriteKeepsValid(backing, Model(), SetRefund((refund + gas) % (MAX_UINT64 + 1)));
      changer.Append(RefundChange(refund));
      refund := (refund + gas) % (MAX_UINT64 + 1);
    }

    /** ok is false when the source panics because the counter would go below zero. */
    method SubRefund(gas: uint64) returns (ok: bool)
      requires Valid()
      modifies this, changer
      ensures Valid() && ok == (gas <= old(refund))
      ensures Model() == old(Model()).Write(backing, SetRefund(if ok then old(refund) - gas else old(refund)))
      ensures refund == (if ok then old(refund) - gas else old(refund)) && accounts == old(accounts)
      ensures Rest() == (old(State().world).(refund := refund), old(transientStorage))
    {
      hide Ledger.Valid;
      ok := gas <= refund;
      WriteKeepsValid(backing, Model(), SetRefund(if ok then refund - gas else refund));
      changer.Append(RefundChange(refund));
      if ok {
        refund := refund - gas;
      }
    }

    /** Log for the given transaction, or for the current one when none is given, always with the current
        transaction's index. */
    method AddLog(txHash: Option<Hash>, data: Bytes, thash: Hash, txIndex: nat)
      requires Valid()
      modifies this, changer
      ensures var log := Log(txHash.GetOr(thash), txIndex, old(logSize), data);
              Valid() && Model() == old(Model()).Write(backing, Journal.AddLog(log))
      ensures var h := txHash.GetOr(thash);
              && logs == old(logs)[h := Get(old(logs), h).GetOr([]) + [Log(h, txIndex, old(logSize), data)]]
              && logSize == old(logSize) + 1 && accounts == old(accounts)
              && Rest() == (old(State().world).(logs := logs, logSize := logSize), old(transientStorage))
    {
      hide Ledger.Valid;
      ghost var l := Model();
      var log := Log(txHash.GetOr(thash), txIndex, logSize, data);
      changer.Append(AddLogChange(log.txHash));
      if log.txHash !in logs {
        logs := logs[log.txHash := []];
      }
      logs := logs[log.txHash := logs[log.txHash] + [log]];
      logSize := logSize + 1;
      assert logs == old(State().world.AddLog(log).logs);
      assert Model() == l.Write(backing, Journal.AddLog(log));
      WriteKeepsValid(backing, l, Journal.AddLog(log));
    }

    method AddPreimage(hash: Hash, preimage: Bytes)
      requires Valid()
      modifies this, changer
      ensures Valid() && Model() == old(Model()).Write(backing, Journal.AddPreimage(hash, preimage))
      ensures preimages == if hash in old(preimages) then old(preimages) else old(preimages)[hash := preimage]
      ensures accounts == old(accounts) && Rest() ==
              (old(State().world).(preimages := preimages), old(transientStorage))
    {
      hide Ledger.Valid;
      WriteKeepsValid(backing, Model(), Journal.AddPreimage(hash, preimage));
      if hash !in preimages {
        changer.Append(AddPreimageChange(hash));
        preimages := preimages[hash := preimage];
      }
    }

    method SetTransientState(addr: Address, key: Key, value: Hash)
      requires Valid()
      modifies this, changer
      ensures Valid()
      ensures Model() == if old(transientStorage).Get(addr, key) == value then old(Model())
                         else old(Model()).Write(backing, SetTransient(addr, key, value))
      ensures forall a, k :: transientStorage.Get(a, k) ==
                             if a == addr && k == key then value else old(transientStorage).Get(a, k)
      ensures accounts == old(accounts) && State().world == old(State().world)
    {
      hide Ledger.Valid;
      var prev := transientStorage.Get(addr, key);
      if prev == value {
        return;
      }
      WriteKeepsValid(backing, Model(), SetTransient(addr, key, value));
      changer.Append(TransientStorageChange(addr, key, prev));
      transientStorage := transientStorage.Set(addr, key, value);
    }

    method AddAddressToAccessList(addr: Address)
      requires Valid()
      modifies this, changer, accessList
      ensures Valid() && Model() == old(Model()).Write(backing, WarmAddress(addr))
      ensures forall a :: accessList.Model().ContainsAddress(a) <==>
              old(accessList.Model()).ContainsAddress(a) || a == addr
      ensures forall a, s :: accessList.Model().ContainsSlot(a, s) <==> old(accessList.Model()).ContainsSlot(a, s)
      ensures accounts == old(accounts)
      ensures Rest() == (old(State().world).(warm := accessList.Model()), old(transientStorage))
    {
      hide Ledger.Valid;
      ghost var l := Model();
      var added := accessList.AddAddress(addr);
      if added {
        changer.Append(AccessListAddAccount(addr));
      }
      assert Model() == l.Write(backing, WarmAddress(addr));
      WriteKeepsValid(backing, l, WarmAddress(addr));
    }

    /** One call of the list, up to two entries: the address first, then the slot. */
    method AddSlotToAccessList(addr: Address, slot: Hash)
      requires Valid()
      modifies this, changer, accessList
      ensures Valid()
      ensures Model() == old(Model()).Write(backing, WarmAddress(addr)).Write(backing, WarmSlot(addr, slot))
      ensures forall a :: accessList.Model().ContainsAddress(a) <==>
              old(accessList.Model()).ContainsAddress(a) || a == addr
      ensures forall a, s :: accessList.Model().ContainsSlot(a, s) <==>
                             old(accessList.Model()).ContainsSlot(a, s) || (a == addr && s == slot)
      ensures accounts == old(accounts)
      ensures Rest() == (old(State().world).(warm := accessList.Model()), old(transientStorage))
    {
      ghost var l := Model();
      var addrMod, slotMod := accessList.AddSlot(addr, slot);
      if addrMod {
        changer.Append(AccessListAddAccount(addr));
      }
      if slotMod {
        changer.Append(AccessListAddSlot(addr, slot));
      }
      assert Model() == l.Write(backing, WarmAddress(addr)).Write(backing, WarmSlot(addr, slot)) by {
        WarmBoth(backing, l, addr, slot);
      }
      assert Model().Valid(backing) by {
        WriteKeepsValid(backing, l, WarmAddress(addr));
        WriteKeepsValid(backing, l.Write(backing, WarmAddress(addr)), WarmSlot(addr, slot));
      }
    }

    method Snapshot() returns (id: nat)
      requires Valid()
      modifies this
      ensures Valid() && id == old(nextRevisionId) && Model() == old(Model()).Snapshot()
    {
      id := nextRevisionId;
      nextRevisionId := nextRevisionId + 1;
      validRevisions := validRevisions + [Revision(id, |changer.changes|)];
    }

    /** Binary search for the first revision whose id is not below the given one. */
    method SearchRevision(revid: nat) returns (idx: nat)
      requires Model().RevisionsOk()
      ensures idx <= |validRevisions|
      ensures forall i :: 0 <= i < idx ==> validRevisions[i].id < revid
      ensures forall i :: idx <= i < |validRevisions| ==> revid <= validRevisions[i].id
    {
      var lo, hi := 0, |validRevisions|;
      while lo < hi
        invariant 0 <= lo <= hi <= |validRevisions|
        invariant forall i :: 0 <= i < lo ==> validRevisions[i].id < revid
        invariant forall i :: hi <= i < |validRevisions| ==> revid <= validRevisions[i].id
      {
        var mid := (lo + hi) / 2;
        if validRevisions[mid].id < revid {
          lo := mid + 1;
        } else {
          hi := mid;
        }
      }
      idx := lo;
    }

    /** Undo one entry. The account, slot and log it needs are there, so nothing is appended. */
    method RevertChange(change: Change)
      requires backing.Ok() && UndoReady(backing, State(), change)
      modifies this, accessList
      ensures State() == Undo(backing, old(State()), change)
      ensures validRevisions == old(validRevisions) && nextRevisionId == old(nextRevisionId)
    {
      match change {
        case CreateObject(a) => accounts := accounts - {a};
        case OnAccount(a, u) => accounts := accounts[a := accounts[a].Undo(u)];
        case RefundChange(v) => refund := v;
        case AddLogChange(h) =>
          if |logs[h]| == 1 {
            logs := logs - {h};
          } else {
            logs := logs[h := logs[h][..|logs[h]| - 1]];
          }
          logSize := logSize - 1;
        case AddPreimageChange(h) => preimages := preimages - {h};
        case AccessListAddAccount(a) => accessList.DeleteAddress(a);
        case AccessListAddSlot(a, s) => accessList.DeleteSlot(a, s);
        case TransientStorageChange(a, k, v) => transientStorage := transientStorage.Set(a, k, v);
      }
    }

    method RevertChanges(snapshot: nat)
      requires Valid() && snapshot <= |changer.changes|
      modifies this, changer, accessList
      ensures changer.Valid()
      ensures State() == Undone(backing, old(State()), old(changer.changes), snapshot)
      ensures changer.changes == old(changer.changes)[..snapshot]
      ensures validRevisions == old(validRevisions) && nextRevisionId == old(nextRevisionId)
    {
      while |changer.changes| > snapshot
        invariant snapshot <= |changer.changes| <= |old(changer.changes)|
        invariant changer.Valid()
        invariant changer.changes == old(changer.changes)[..|changer.changes|]
        invariant Undoable(backing, State(), changer.changes)
        invariant Undone(backing, State(), changer.changes, snapshot) ==
            Undone(backing, old(State()), old(changer.changes), snapshot)
        invariant validRevisions == old(validRevisions) && nextRevisionId == old(nextRevisionId)
      {
        RevertChange(changer.changes[|changer.changes| - 1]);
        changer.Pop();
      }
    }

    /** ok is false when the source panics on an id that is not live. */
    method RevertToSnapshot(revid: nat) returns (ok: bool)
      requires Valid()
      modifies this, changer, accessList
      ensures Valid() && ok == old(Model()).Live(revid)
      ensures ok ==> Exec(backing, old(Model()), RevertTo(revid)) == Some(Model())
      ensures !ok ==> Model() == old(Model())
    {
      ghost var l := Model();
      var idx := SearchRevision(revid);
      if idx == |validRevisions| || validRevisions[idx].id != revid {
        assert forall i :: !l.At(i, revid);
        return false;
      }
      assert l.At(idx, revid);
      RevertKeepsValid(backing, l, idx);
      RevertIsExec(backing, l, idx, revid);
      RevertChanges(validRevisions[idx].index);
      validRevisions := validRevisions[..idx];
      ok := true;
    }

    /** The end of a transaction: slots become pending, journal, refund and revisions start afresh. */
    method Finalise()
      requires Valid()
      modifies this, changer
      ensures Valid() && changer.changes == [] && validRevisions == [] && nextRevisionId == 0 && refund == 0
      ensures accounts == map a | a in old(accounts) :: old(accounts)[a].Finalised()
      ensures SlotsAsBefore(backing, old(accounts), accounts)
      ensures forall a, k :: a in accounts ==>
                accounts[a].slots.Committed(backing, a, k) == SlotAt(backing, old(accounts), a, k)
      ensures forall a :: Account(a) ==
                if a in old(accounts) then Some(old(Account(a)).value.(created := false)) else old(Account(a))
      ensures logs == old(logs) && preimages == old(preimages) && transientStorage == old(transientStorage)
    {
      hide SimpleAccount.Ok, SimpleAccount.Finalised, SlotsAsBefore, AccountAt, SlotAt, Undo, UndoReady;
      ValidIsOk(backing, Model());
      FinaliseKeepsOk(backing, accounts);
      FinaliseReads(backing, accounts);
      FinaliseCommits(backing, accounts);
      accounts := map a | a in accounts :: accounts[a].Finalised();
      changer.changes, changer.dirties := [], map[];
      refund, validRevisions, nextRevisionId := 0, [], 0;
      assert State().Ok(backing);
    }
  }

  lemma FinaliseCommits(b: Backing, m: AccountMap)
    requires AccountsOk(b, m)
    ensures forall a, k :: a in m ==> m[a].Finalised().slots.Committed(b, a, k) == SlotAt(b, m, a, k)
  {
    forall a, k | a in m ensures m[a].Finalised().slots.Committed(b, a, k) == SlotAt(b, m, a, k) {
      FinalisedReads(b, m, a, k);
    }
  }

  lemma FinaliseKeepsOk(b: Backing, m: AccountMap)
    requires AccountsOk(b, m)
    ensures AccountsOk(b, map a | a in m :: m[a].Finalised())
  {
    forall a | a in m ensures m[a].Finalised().Ok(b) {
      FinalisePublishes(b, a, m[a].slots, "");
    }
  }

  /** Adding a slot to the list at once is warming the address and then the slot. */
  lemma WarmBoth(b: Backing, l: Ledger, a: Address, s: Hash)
    requires l.core.world.warm.WellFormed()
    ensures var w := l.core.world.warm;
            l.Write(b, WarmAddress(a)).Write(b, WarmSlot(a, s)) ==
            l.(core := l.core.(world := l.core.world.(warm := w.AddSlot(a, s))),
               journal := l.journal + (if w.ContainsAddress(a) then [] else [AccessListAddAccount(a)])
                                    + (if w.ContainsSlot(a, s) then [] else [AccessListAddSlot(a, s)]))
  {
    var w := l.core.world.warm;
    assert w.addresses[a := -1][a := |w.slots|] == w.addresses[a := |w.slots|];
    if w.ContainsSlot(a, s) {
      var i := w.addresses[a];
      assert w.slots[i] + {s} == w.slots[i];
      assert w.AddSlot(a, s) == w;
    }
  }

  lemma RevertIsExec(b: Backing, l: Ledger, i: nat, id: nat)
    requires l.RevisionsOk() && l.At(i, id)
    ensures Exec(b, l, RevertTo(id)) == Some(l.RevertAt(b, i))
  {
    var j: nat :| l.At(j, id) && Exec(b, l, RevertTo(id)) == Some(l.RevertAt(b, j));
    RevisionIsUnique(l, i, j, id);
  }
}
