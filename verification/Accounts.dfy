/** One account of the state ledger: the block-start record and slots (origin), what earlier
    transactions of the block changed (pending) and what the current one changed (dirty). */
module Accounts {
  import opened Types

  /** Keccak is taken to be injective; nil and empty code have the same hash. */
  datatype CodeHash = NoHash | Keccak(code: Bytes)

  const EMPTY_CODE_HASH := Keccak([])

  function HashOf(code: Option<Bytes>): CodeHash {
    Keccak(code.GetOr([]))
  }

  datatype InnerAccount = InnerAccount(balance: int, nonce: uint64, codeHash: CodeHash, storageRoot: Hash)

  const NEW_INNER := InnerAccount(0, 0, NoHash, "")

  type Key = Bytes

  /** A slot value; None is Go's nil. */
  type Value = Option<Bytes>

  /** The state at the start of the block: what the snapshot (or the trie) and the code store answer. */
  datatype Backing = Backing(
    accounts: map<Address, InnerAccount>,
    storage: map<(Address, Key), Bytes>,
    codes: map<(Address, CodeHash), Bytes>)
  {
    /** Storing an empty value deletes the key, so empty code is never stored. */
    ghost predicate Ok() {
      forall a: Address :: (a, NoHash) !in codes && (a, EMPTY_CODE_HASH) !in codes
    }

    function Slot(a: Address, k: Key): Value {
      Get(storage, (a, k))
    }

    function OriginCode(a: Address): Option<Bytes> {
      if a in accounts && accounts[a].codeHash != NoHash then Get(codes, (a, accounts[a].codeHash)) else None
    }

    function Load(a: Address): SimpleAccount
      requires a in accounts
    {
      SimpleAccount(a, Some(accounts[a]), None, OriginCode(a), OriginCode(a), NO_SLOTS, false, false)
    }
  }

  function NewAccount(a: Address): SimpleAccount {
    SimpleAccount(a, None, None, None, None, NO_SLOTS, false, true)
  }

  datatype AccountWrite =
    | Destruct
    | SetBalance(balance: int)
    | SetNonce(nonce: uint64)
    | SetCode(code: Option<Bytes>)
    | SetState(key: Key, value: Value)

  /** The journal entry of an account write: the previous value of what it changes. */
  datatype AccountChange =
    | Suicide(flag: bool, balance: int)
    | BalanceChange(balance: int)
    | NonceChange(nonce: uint64)
    | CodeChange(code: Option<Bytes>)
    | StorageChange(key: Key, value: Value)

  /** The three storage layers of an account. */
  datatype Slots = Slots(origin: map<Key, Value>, pending: map<Key, Value>, dirty: map<Key, Value>) {

    function Committed(b: Backing, a: Address, k: Key): Value {
      if k in pending then pending[k]
      else if k in origin then origin[k]
      else b.Slot(a, k)
    }

    function Current(b: Backing, a: Address, k: Key): Value {
      if k in dirty then dirty[k] else Committed(b, a, k)
    }

    /** A read fills the origin layer on a miss. */
    function Cached(b: Backing, a: Address, k: Key): Slots {
      if k in dirty || k in pending || k in origin then this
      else this.(origin := origin[k := b.Slot(a, k)])
    }

    function With(k: Key, v: Value): Slots {
      this.(dirty := dirty[k := v])
    }

    function Finalised(): Slots {
      Slots(origin, pending + dirty, map[])
    }

    /** The origin layer holds block-start values and covers every key the other layers write. */
    ghost predicate Ok(b: Backing, a: Address) {
      && (forall k :: k in origin ==> origin[k] == b.Slot(a, k))
      && (forall k :: k in pending ==> k in origin)
      && (forall k :: k in dirty ==> k in origin)
    }
  }

  const NO_SLOTS := Slots(map[], map[], map[])

  ghost predicate SameSlots(b: Backing, a: Address, x: Slots, y: Slots) {
    && (forall k :: x.Current(b, a, k) == y.Current(b, a, k))
    && (forall k :: x.Committed(b, a, k) == y.Committed(b, a, k))
  }

  datatype SimpleAccount = SimpleAccount(
    addr: Address,
    originAccount: Option<InnerAccount>,
    dirtyAccount: Option<InnerAccount>,
    originCode: Option<Bytes>,
    dirtyCode: Option<Bytes>,
    slots: Slots,
    selfDestructed: bool,
    created: bool)
  {
    /** The record the getters answer from; also what a first write copies. */
    function Inner(): InnerAccount {
      if dirtyAccount.Some? then dirtyAccount.value else originAccount.GetOr(NEW_INNER)
    }

    function Code(b: Backing): Option<Bytes> {
      if dirtyCode.Some? then dirtyCode
      else if originCode.Some? then originCode
      else if Inner().codeHash == NoHash then None
      else Get(b.codes, (addr, Inner().codeHash))
    }

    function Slot(b: Backing, k: Key): Value {
      slots.Current(b, addr, k)
    }

    predicate IsEmpty(b: Backing) {
      Inner().balance == 0 && Inner().nonce == 0 && Code(b).None? && !selfDestructed
    }

    function WithInner(inner: InnerAccount): SimpleAccount {
      this.(dirtyAccount := Some(inner))
    }

    function WithBalance(v: int): SimpleAccount {
      WithInner(Inner().(balance := v))
    }

    function WithNonce(n: uint64): SimpleAccount {
      WithInner(Inner().(nonce := n))
    }

    function WithCode(c: Option<Bytes>): SimpleAccount {
      WithInner(Inner().(codeHash := HashOf(c))).(dirtyCode := c)
    }

    function Record(b: Backing, w: AccountWrite): AccountChange {
      match w
      case Destruct => Suicide(selfDestructed, Inner().balance)
      case SetBalance(_) => BalanceChange(Inner().balance)
      case SetNonce(_) => NonceChange(Inner().nonce)
      case SetCode(_) => CodeChange(Code(b))
      case SetState(k, _) => StorageChange(k, Slot(b, k))
    }

    function Apply(b: Backing, w: AccountWrite): SimpleAccount {
      match w
      case Destruct => this.(selfDestructed := true)
      case SetBalance(v) => WithBalance(v)
      case SetNonce(n) => WithNonce(n)
      case SetCode(code) => WithCode(code)
      case SetState(k, v) => WithInner(Inner()).(slots := slots.Cached(b, addr, k).With(k, v))
    }

    function Undo(ch: AccountChange): SimpleAccount {
      match ch
      case Suicide(flag, v) => this.(selfDestructed := flag).WithBalance(v)
      case BalanceChange(v) => WithBalance(v)
      case NonceChange(n) => WithNonce(n)
      case CodeChange(code) => WithCode(code)
      case StorageChange(k, v) => this.(slots := slots.With(k, v))
    }

    function Finalised(): SimpleAccount {
      this.(slots := slots.Finalised(), created := false)
    }

    /** Origin record, code and slots are those of the block start, and no code is hidden
        behind a hash that was not looked up. */
    ghost predicate Ok(b: Backing) {
      && originAccount == Get(b.accounts, addr)
      && originCode == b.OriginCode(addr)
      && slots.Ok(b, addr)
      && (dirtyCode.None? && originCode.None? ==> (addr, Inner().codeHash) !in b.codes)
    }
  }

  /** Two accounts no reader can tell apart. The code hash is not included, see CodeHashes. */
  ghost predicate SameAccount(b: Backing, x: SimpleAccount, y: SimpleAccount) {
    && x.addr == y.addr
    && x.Inner().balance == y.Inner().balance
    && x.Inner().nonce == y.Inner().nonce
    && x.Code(b) == y.Code(b)
    && x.selfDestructed == y.selfDestructed
    && x.created == y.created
    && SameSlots(b, x.addr, x.slots, y.slots)
  }

  lemma SameAccountTrans(b: Backing, x: SimpleAccount, y: SimpleAccount, z: SimpleAccount)
    requires SameAccount(b, x, y) && SameAccount(b, y, z)
    ensures SameAccount(b, x, z)
  {
    var a := x.addr;
    forall k ensures x.slots.Current(b, a, k) == z.slots.Current(b, a, k)
      ensures x.slots.Committed(b, a, k) == z.slots.Committed(b, a, k)
    {
      assert x.slots.Current(b, a, k) == y.slots.Current(b, a, k);
      assert x.slots.Committed(b, a, k) == y.slots.Committed(b, a, k);
    }
  }

  lemma LoadIsOk(b: Backing, a: Address)
    requires b.Ok() && a in b.accounts
    ensures b.Load(a).Ok(b)
  {
  }

  lemma NewIsOk(b: Backing, a: Address)
    requires b.Ok() && a !in b.accounts
    ensures NewAccount(a).Ok(b)
  {
  }

  /** A first read fills a cache and changes no answer. */
  lemma CachedIsInvisible(b: Backing, a: Address, s: Slots, k: Key)
    requires s.Ok(b, a)
    ensures s.Cached(b, a, k).Ok(b, a) && k in s.Cached(b, a, k).origin
    ensures SameSlots(b, a, s.Cached(b, a, k), s)
  {
  }

  /** Finalise publishes exactly the current slot values. */
  lemma FinalisePublishes(b: Backing, a: Address, s: Slots, k: Key)
    requires s.Ok(b, a)
    ensures s.Finalised().Ok(b, a)
    ensures s.Finalised().Current(b, a, k) == s.Finalised().Committed(b, a, k) == s.Current(b, a, k)
  {
  }

  lemma WithRestores(b: Backing, a: Address, s: Slots, k: Key, v: Value)
    requires s.Ok(b, a)
    ensures s.Cached(b, a, k).With(k, v).Ok(b, a)
    ensures SameSlots(b, a, s.Cached(b, a, k).With(k, v).With(k, s.Current(b, a, k)), s)
  {
    var c := s.Cached(b, a, k);
    var e := c.With(k, v).With(k, s.Current(b, a, k));
    CachedIsInvisible(b, a, s, k);
    forall j ensures e.Current(b, a, j) == s.Current(b, a, j) && e.Committed(b, a, j) == s.Committed(b, a, j) {
      assert c.Current(b, a, j) == s.Current(b, a, j) && c.Committed(b, a, j) == s.Committed(b, a, j);
    }
  }

  lemma ApplyKeepsOk(b: Backing, acc: SimpleAccount, w: AccountWrite)
    requires b.Ok() && acc.Ok(b)
    ensures acc.Apply(b, w).Ok(b)
    ensures EntryOk(b, acc.addr, acc.Record(b, w))
    ensures acc.Record(b, w).StorageChange? ==> acc.Record(b, w).key in acc.Apply(b, w).slots.origin
    ensures acc.Apply(b, w).addr == acc.addr && forall k :: k in acc.slots.origin ==> k in acc.Apply(b, w).slots.origin
  {
    if w.SetState? { WithRestores(b, acc.addr, acc.slots, w.key, w.value); }
  }

  lemma UndoKeepsOk(b: Backing, acc: SimpleAccount, ch: AccountChange)
    requires b.Ok() && acc.Ok(b)
    requires ch.StorageChange? ==> ch.key in acc.slots.origin
    ensures acc.Undo(ch).Ok(b) && acc.Undo(ch).addr == acc.addr && acc.Undo(ch).slots.origin == acc.slots.origin
  {
  }

  /** Undoing the entry of an account write right after the write restores the account. */
  lemma UndoInvertsApply(b: Backing, acc: SimpleAccount, w: AccountWrite)
    requires b.Ok() && acc.Ok(b)
    ensures SameAccount(b, acc.Apply(b, w).Undo(acc.Record(b, w)), acc)
  {
    if w.SetState? {
      WithRestores(b, acc.addr, acc.slots, w.key, w.value);
    } else {
      hide Slots.Current, Slots.Committed, Slots.Ok;
      assert acc.Apply(b, w).Undo(acc.Record(b, w)).slots == acc.slots;
    }
  }

  /** What an entry recorded under the invariant guarantees about itself. */
  ghost predicate EntryOk(b: Backing, addr: Address, ch: AccountChange) {
    ch.CodeChange? && ch.code.None? ==> b.OriginCode(addr).None?
  }

  lemma WithRespectsSame(b: Backing, a: Address, x: Slots, y: Slots, k: Key, v: Value)
    requires SameSlots(b, a, x, y)
    ensures SameSlots(b, a, x.With(k, v), y.With(k, v))
  {
    forall j ensures x.With(k, v).Current(b, a, j) == y.With(k, v).Current(b, a, j)
      ensures x.With(k, v).Committed(b, a, j) == y.With(k, v).Committed(b, a, j)
    {
      assert x.Current(b, a, j) == y.Current(b, a, j) && x.Committed(b, a, j) == y.Committed(b, a, j);
    }
  }

  /** Undoing cannot tell indistinguishable accounts apart. */
  lemma UndoRespectsSame(b: Backing, x: SimpleAccount, y: SimpleAccount, ch: AccountChange)
    requires b.Ok() && x.Ok(b) && y.Ok(b)
    requires SameAccount(b, x, y) && EntryOk(b, x.addr, ch)
    ensures SameAccount(b, x.Undo(ch), y.Undo(ch))
  {
    match ch
    case StorageChange(k, v) => WithRespectsSame(b, x.addr, x.slots, y.slots, k, v);
    case _ =>
  }
}
