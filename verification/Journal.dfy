/** The journal of the state ledger. Every mutation appends an entry that undoes it;
    reverting to a snapshot undoes entries from the back. */
module Journal {
  import opened Types
  import opened Accounts
  import opened AccessLists

  type AccountMap = map<Address, SimpleAccount>

  /** The account an address denotes: the loaded one, else the stored one, else none. */
  function Peek(b: Backing, m: AccountMap, a: Address): Option<SimpleAccount> {
    if a in m then Some(m[a])
    else if a in b.accounts then Some(b.Load(a))
    else None
  }

  ghost predicate AccountsOk(b: Backing, m: AccountMap) {
    forall a :: a in m ==> m[a].addr == a && m[a].Ok(b)
  }

  /** EIP-1153 storage. An unset slot reads as the zero hash, written "". */
  datatype Transients = Transients(m: map<Address, map<Key, Hash>>) {
    function Get(a: Address, k: Key): Hash {
      if a in m && k in m[a] then m[a][k] else ""
    }

    function Set(a: Address, k: Key, v: Hash): Transients {
      var slots := if a in m then m[a] else map[];
      Transients(m[a := slots[k := v]])
    }
  }

  datatype Log = Log(txHash: Hash, txIndex: nat, logIndex: nat, data: Bytes)

  datatype World = World(
    refund: uint64,
    logs: map<Hash, seq<Log>>,
    logSize: nat,
    preimages: map<Hash, Bytes>,
    warm: Warm)
  {
    ghost predicate Ok() {
      warm.WellFormed() && forall h :: h in logs ==> logs[h] != []
    }

    function AddLog(log: Log): World {
      var prior := if log.txHash in logs then logs[log.txHash] else [];
      this.(logs := logs[log.txHash := prior + [log.(logIndex := logSize)]], logSize := logSize + 1)
    }

    predicate HasLog(h: Hash) {
      h in logs && logs[h] != [] && logSize > 0
    }

    function RemoveLog(h: Hash): World
      requires HasLog(h)
    {
      if |logs[h]| == 1 then this.(logs := logs - {h}, logSize := logSize - 1)
      else this.(logs := logs[h := logs[h][..|logs[h]| - 1]], logSize := logSize - 1)
    }
  }

  /** Everything a journal entry can restore. */
  datatype Core = Core(accounts: AccountMap, transient: Transients, world: World) {

    function With(a: Address, acc: SimpleAccount): Core {
      this.(accounts := accounts[a := acc])
    }

    ghost predicate Ok(b: Backing) {
      AccountsOk(b, accounts) && world.Ok()
    }
  }

  // ---------------------------------------------------------------- writes and their entries

  /** The journaled mutations, each appending one entry. */
  datatype Write =
    | Create(account: Address)
    | Update(account: Address, write: AccountWrite)
    | SetRefund(refund: uint64)
    | AddLog(log: Log)
    | AddPreimage(hash: Hash, data: Bytes)
    | WarmAddress(address: Address)
    | WarmSlot(address: Address, slot: Hash)
    | SetTransient(address: Address, key: Key, value: Hash)

  datatype Change =
    | CreateObject(account: Address)
    | OnAccount(account: Address, change: AccountChange)
    | RefundChange(refund: uint64)
    | AddLogChange(txHash: Hash)
    | AddPreimageChange(hash: Hash)
    | AccessListAddAccount(address: Address)
    | AccessListAddSlot(address: Address, slot: Hash)
    | TransientStorageChange(address: Address, key: Key, value: Hash)
  {
    /** The account an entry works on and counts as dirty. */
    function Dirtied(): Option<Address> {
      if CreateObject? || OnAccount? then Some(account) else None
    }
  }

  /** When the code performs the write (otherwise it appends nothing). */
  predicate Enabled(b: Backing, c: Core, w: Write) {
    match w
    case Create(a) => Peek(b, c.accounts, a).None?
    case Update(a, _) => a in c.accounts
    case AddPreimage(h, _) => h !in c.world.preimages
    case WarmAddress(a) => !c.world.warm.ContainsAddress(a)
    case WarmSlot(a, s) => c.world.warm.ContainsAddress(a) && !c.world.warm.ContainsSlot(a, s)
    case _ => true
  }

  /** The entry a write appends: the previous value of what it is about to change. */
  function Record(b: Backing, c: Core, w: Write): Change
    requires Enabled(b, c, w)
  {
    match w
    case Create(a) => CreateObject(a)
    case Update(a, u) => OnAccount(a, c.accounts[a].Record(b, u))
    case SetRefund(_) => RefundChange(c.world.refund)
    case AddLog(log) => AddLogChange(log.txHash)
    case AddPreimage(h, _) => AddPreimageChange(h)
    case WarmAddress(a) => AccessListAddAccount(a)
    case WarmSlot(a, s) => AccessListAddSlot(a, s)
    case SetTransient(a, k, _) => TransientStorageChange(a, k, c.transient.Get(a, k))
  }

  function Perform(b: Backing, c: Core, w: Write): Core
    requires Enabled(b, c, w)
  {
    match w
    case Create(a) => c.With(a, NewAccount(a))
    case Update(a, u) => c.With(a, c.accounts[a].Apply(b, u))
    case SetRefund(v) => c.(world := c.world.(refund := v))
    case AddLog(log) => c.(world := c.world.AddLog(log))
    case AddPreimage(h, data) => c.(world := c.world.(preimages := c.world.preimages[h := data]))
    case WarmAddress(a) => c.(world := c.world.(warm := c.world.warm.AddAddress(a)))
    case WarmSlot(a, s) => c.(world := c.world.(warm := c.world.warm.AddSlot(a, s)))
    case SetTransient(a, k, v) => c.(transient := c.transient.Set(a, k, v))
  }

  /** What undoing an entry relies on. Were the account missing, the code would create it and
      append to the journal being undone; were the slot or the log missing, it would panic. */
  ghost predicate UndoReady(b: Backing, c: Core, ch: Change) {
    match ch
    case CreateObject(a) => a in c.accounts && a !in b.accounts
    case OnAccount(a, u) =>
      && a in c.accounts
      && EntryOk(b, a, u)
      && (u.StorageChange? ==> u.key in c.accounts[a].slots.origin)
    case AccessListAddSlot(a, _) => c.world.warm.HasSlots(a)
    case AddLogChange(h) => c.world.HasLog(h)
    case _ => true
  }

  function UndoWorld(w: World, ch: Change): World {
    match ch
    case RefundChange(v) => w.(refund := v)
    case AddLogChange(h) => if w.HasLog(h) then w.RemoveLog(h) else w
    case AddPreimageChange(h) => w.(preimages := w.preimages - {h})
    case AccessListAddAccount(a) => w.(warm := w.warm.DeleteAddress(a))
    case AccessListAddSlot(a, s) => if w.warm.HasSlots(a) then w.(warm := w.warm.DeleteSlot(a, s)) else w
    case _ => w
  }

  function Undo(b: Backing, c: Core, ch: Change): Core {
    match ch
    case CreateObject(a) => c.(accounts := c.accounts - {a})
    case OnAccount(a, u) => c.With(a, Peek(b, c.accounts, a).GetOr(NewAccount(a)).Undo(u))
    case TransientStorageChange(a, k, v) => c.(transient := c.transient.Set(a, k, v))
    case _ => c.(world := UndoWorld(c.world, ch))
  }

  // ---------------------------------------------------------------- what readers can see

  ghost predicate SamePeek(b: Backing, x: Option<SimpleAccount>, y: Option<SimpleAccount>) {
    if x.Some? && y.Some? then SameAccount(b, x.value, y.value) else x == y
  }

  ghost predicate SameAccounts(b: Backing, m: AccountMap, n: AccountMap) {
    forall a :: SamePeek(b, Peek(b, m, a), Peek(b, n, a))
  }

  ghost predicate SameTransient(s: Transients, t: Transients) {
    forall a, k :: s.Get(a, k) == t.Get(a, k)
  }

  /** Two states no reader can tell apart: existence, balance, nonce, code, self-destruct and
      created flags, current and committed slots of every account, transient storage, refund,
      logs, preimages and the access list. */
  ghost predicate Same(b: Backing, c: Core, d: Core) {
    SameAccounts(b, c.accounts, d.accounts) && SameTransient(c.transient, d.transient) && c.world == d.world
  }

  /** m has at least n's accounts and origin slots loaded. */
  ghost predicate Loads(m: AccountMap, n: AccountMap) {
    forall a :: a in n ==> LoadsAt(m, n, a)
  }

  ghost predicate LoadsAt(m: AccountMap, n: AccountMap, a: Address)
    requires a in n
  {
    a in m && forall k :: k in n[a].slots.origin ==> k in m[a].slots.origin
  }

  /** c is sound and answers every read as d does, with at least as much loaded. */
  ghost predicate Covers(b: Backing, c: Core, d: Core) {
    c.Ok(b) && Same(b, c, d) && Loads(c.accounts, d.accounts)
  }

  // ---------------------------------------------------------------- one entry

  lemma UpdateKeepsOk(b: Backing, m: AccountMap, a: Address, acc: SimpleAccount)
    requires AccountsOk(b, m) && acc.addr == a && acc.Ok(b)
    ensures AccountsOk(b, m[a := acc])
  {
  }

  lemma PerformKeepsOk(b: Backing, c: Core, w: Write)
    requires b.Ok() && c.Ok(b) && Enabled(b, c, w)
    ensures Perform(b, c, w).Ok(b)
  {
    match w
    case Create(a) => NewIsOk(b, a); UpdateKeepsOk(b, c.accounts, a, NewAccount(a));
    case Update(a, u) =>
      ApplyKeepsOk(b, c.accounts[a], u);
      UpdateKeepsOk(b, c.accounts, a, c.accounts[a].Apply(b, u));
    case WarmAddress(a) => AddAddressKeepsWellFormed(c.world.warm, a);
    case WarmSlot(a, s) => AddSlotKeepsWellFormed(c.world.warm, a, s);
    case _ =>
  }

  lemma SameAccountsRefl(b: Backing, m: AccountMap)
    ensures SameAccounts(b, m, m) && Loads(m, m)
  {
  }

  /** Replacing one account by an indistinguishable one, at least as loaded, is invisible. */
  lemma ReplaceIsInvisible(b: Backing, m: AccountMap, a: Address, acc: SimpleAccount)
    requires Peek(b, m, a).Some? && SameAccount(b, acc, Peek(b, m, a).value)
    requires a in m ==> forall k :: k in m[a].slots.origin ==> k in acc.slots.origin
    ensures SameAccounts(b, m[a := acc], m) && Loads(m[a := acc], m)
  {
    var n := m[a := acc];
    forall x ensures SamePeek(b, Peek(b, n, x), Peek(b, m, x)) {
      if x != a { assert Peek(b, n, x) == Peek(b, m, x); }
    }
    forall x | x in m ensures LoadsAt(n, m, x) {
    }
  }

  lemma UndoInvertsUpdate(b: Backing, c: Core, a: Address, u: AccountWrite)
    requires b.Ok() && c.Ok(b) && a in c.accounts
    ensures UndoReady(b, Perform(b, c, Update(a, u)), Record(b, c, Update(a, u)))
    ensures Covers(b, Undo(b, Perform(b, c, Update(a, u)), Record(b, c, Update(a, u))), c)
  {
    hide SameAccount, SimpleAccount.Apply, SimpleAccount.Undo, SimpleAccount.Record, SimpleAccount.Ok, EntryOk,
        World.Ok;
    var acc := c.accounts[a];
    var back := acc.Apply(b, u).Undo(acc.Record(b, u));
    ApplyKeepsOk(b, acc, u);
    UndoKeepsOk(b, acc.Apply(b, u), acc.Record(b, u));
    UndoInvertsApply(b, acc, u);
    UpdateKeepsOk(b, c.accounts, a, back);
    ReplaceIsInvisible(b, c.accounts, a, back);
    assert c.accounts[a := acc.Apply(b, u)][a := back] == c.accounts[a := back];
  }

  lemma RemoveLogUndoesAddLog(w: World, log: Log)
    requires w.Ok()
    ensures w.AddLog(log).HasLog(log.txHash) && w.AddLog(log).RemoveLog(log.txHash) == w
  {
    var h := log.txHash;
    var v := w.AddLog(log);
    if h in w.logs {
      assert v.logs[h][..|v.logs[h]| - 1] == w.logs[h];
    }
    assert v.RemoveLog(h).logs == w.logs;
  }

  lemma UndoInvertsWorldWrite(b: Backing, c: Core, w: Write)
    requires c.Ok(b) && Enabled(b, c, w) && !w.Create? && !w.Update? && !w.SetTransient?
    ensures UndoReady(b, Perform(b, c, w), Record(b, c, w))
    ensures Undo(b, Perform(b, c, w), Record(b, c, w)) == c
  {
    match w
    case AddLog(log) => RemoveLogUndoesAddLog(c.world, log);
    case AddPreimage(h, data) => assert c.world.preimages[h := data] - {h} == c.world.preimages;
    case WarmAddress(a) => DeleteAddressUndoesAddAddress(c.world.warm, a);
    case WarmSlot(a, s) => DeleteSlotUndoesAddSlot(c.world.warm, a, s);
    case _ =>
  }

  /** Undoing the entry of a write right after the write restores every observable. */
  lemma UndoInvertsWrite(b: Backing, c: Core, w: Write)
    requires b.Ok() && c.Ok(b) && Enabled(b, c, w)
    ensures UndoReady(b, Perform(b, c, w), Record(b, c, w))
    ensures Covers(b, Undo(b, Perform(b, c, w), Record(b, c, w)), c)
  {
    SameAccountsRefl(b, c.accounts);
    match w
    case Create(a) => assert c.accounts[a := NewAccount(a)] - {a} == c.accounts;
    case Update(a, u) => UndoInvertsUpdate(b, c, a, u);
    case SetTransient(_, _, _) =>
    case _ => UndoInvertsWorldWrite(b, c, w);
  }

  // ---------------------------------------------------------------- undoing respects Covers

  lemma CoversTrans(b: Backing, x: Core, y: Core, z: Core)
    requires Covers(b, x, y) && Covers(b, y, z)
    ensures Covers(b, x, z)
  {
    forall a ensures SamePeek(b, Peek(b, x.accounts, a), Peek(b, z.accounts, a)) {
      var p, q, r := Peek(b, x.accounts, a), Peek(b, y.accounts, a), Peek(b, z.accounts, a);
      assert SamePeek(b, p, q) && SamePeek(b, q, r);
      if p.Some? { SameAccountTrans(b, p.value, q.value, r.value); }
    }
    forall a, k ensures x.transient.Get(a, k) == z.transient.Get(a, k) {
      assert x.transient.Get(a, k) == y.transient.Get(a, k);
    }
    forall a | a in z.accounts ensures LoadsAt(x.accounts, z.accounts, a) {
      assert LoadsAt(y.accounts, z.accounts, a) && LoadsAt(x.accounts, y.accounts, a);
    }
  }

  lemma UpdateRespectsSame(b: Backing, m: AccountMap, n: AccountMap, a: Address, x: SimpleAccount, y: SimpleAccount)
    requires SameAccounts(b, m, n) && Loads(m, n) && SameAccount(b, x, y)
    requires forall k :: k in y.slots.origin ==> k in x.slots.origin
    ensures SameAccounts(b, m[a := x], n[a := y]) && Loads(m[a := x], n[a := y])
  {
    var m', n' := m[a := x], n[a := y];
    forall z ensures SamePeek(b, Peek(b, m', z), Peek(b, n', z)) {
      if z != a {
        assert Peek(b, m', z) == Peek(b, m, z) && Peek(b, n', z) == Peek(b, n, z);
      }
    }
    forall z | z in n' ensures LoadsAt(m', n', z) {
      if z != a { assert LoadsAt(m, n, z); }
    }
  }

  lemma DeleteRespectsSame(b: Backing, m: AccountMap, n: AccountMap, a: Address)
    requires SameAccounts(b, m, n) && Loads(m, n)
    ensures SameAccounts(b, m - {a}, n - {a}) && Loads(m - {a}, n - {a})
  {
    var m', n' := m - {a}, n - {a};
    forall z ensures SamePeek(b, Peek(b, m', z), Peek(b, n', z)) {
      if z != a {
        assert Peek(b, m', z) == Peek(b, m, z) && Peek(b, n', z) == Peek(b, n, z);
      }
    }
    forall z | z in n' ensures LoadsAt(m', n', z) {
      assert LoadsAt(m, n, z);
    }
  }

  lemma SetRespectsSame(s: Transients, t: Transients, a: Address, k: Key, v: Hash)
    requires SameTransient(s, t)
    ensures SameTransient(s.Set(a, k, v), t.Set(a, k, v))
  {
    forall x, j ensures s.Set(a, k, v).Get(x, j) == t.Set(a, k, v).Get(x, j) {
      assert s.Get(x, j) == t.Get(x, j);
    }
  }

  lemma UndoUpdateRespectsCovers(b: Backing, c: Core, d: Core, a: Address, u: AccountChange)
    requires b.Ok() && d.Ok(b) && Covers(b, c, d) && UndoReady(b, d, OnAccount(a, u))
    ensures UndoReady(b, c, OnAccount(a, u))
    ensures Covers(b, Undo(b, c, OnAccount(a, u)), Undo(b, d, OnAccount(a, u)))
  {
    hide SameAccount, SimpleAccount.Undo, SimpleAccount.Ok, World.Ok;
    assert LoadsAt(c.accounts, d.accounts, a);
    var x, y := c.accounts[a], d.accounts[a];
    assert SamePeek(b, Peek(b, c.accounts, a), Peek(b, d.accounts, a));
    assert x.addr == a;
    UndoKeepsOk(b, x, u);
    UndoKeepsOk(b, y, u);
    UndoRespectsSame(b, x, y, u);
    UpdateKeepsOk(b, c.accounts, a, x.Undo(u));
    UpdateRespectsSame(b, c.accounts, d.accounts, a, x.Undo(u), y.Undo(u));
  }

  /** Undoing an entry gives indistinguishable results on indistinguishable states. */
  lemma UndoRespectsCovers(b: Backing, c: Core, d: Core, ch: Change)
    requires b.Ok() && d.Ok(b) && Covers(b, c, d)
    requires UndoReady(b, d, ch) && Undo(b, d, ch).Ok(b)
    ensures UndoReady(b, c, ch) && Covers(b, Undo(b, c, ch), Undo(b, d, ch))
  {
    match ch
    case OnAccount(a, u) => UndoUpdateRespectsCovers(b, c, d, a, u);
    case CreateObject(a) =>
      assert LoadsAt(c.accounts, d.accounts, a);
      DeleteRespectsSame(b, c.accounts, d.accounts, a);
    case TransientStorageChange(a, k, v) => SetRespectsSame(c.transient, d.transient, a, k, v);
    case _ =>
  }
}
