/** What a caller reads from the ledger after a write, told without the write's own definition. */
module Readings {
  import opened Types
  import opened Accounts
  import opened Journal
  import opened Revisions

  /** What the getters answer about an account, its slots apart. */
  datatype Reading = Reading(
    balance: int,
    nonce: uint64,
    code: Option<Bytes>,
    codeHash: CodeHash,
    destroyed: bool,
    created: bool)

  /** An account that was just created. */
  const NEW_READING := Reading(0, 0, None, NoHash, false, true)

  function View(b: Backing, acc: SimpleAccount): Reading {
    Reading(acc.Inner().balance, acc.Inner().nonce, acc.Code(b), acc.Inner().codeHash, acc.selfDestructed, acc.created)
  }

  /** None when there is no account at the address. */
  function AccountAt(b: Backing, m: AccountMap, a: Address): Option<Reading> {
    match Peek(b, m, a)
    case Some(acc) => Some(View(b, acc))
    case None => None
  }

  function SlotAt(b: Backing, m: AccountMap, a: Address, k: Key): Value {
    match Peek(b, m, a)
    case Some(acc) => acc.Slot(b, k)
    case None => b.Slot(a, k)
  }

  /** Every slot of every account reads as before. */
  ghost predicate SlotsAsBefore(b: Backing, m: AccountMap, m': AccountMap) {
    forall a, k :: SlotAt(b, m', a, k) == SlotAt(b, m, a, k)
  }

  /** Every account but one reads as before. */
  ghost predicate OthersAsBefore(b: Backing, m: AccountMap, m': AccountMap, a: Address) {
    forall c :: c != a ==> AccountAt(b, m', c) == AccountAt(b, m, c)
  }

  /** The account now reads as given and nothing else reads differently. */
  ghost predicate NowReads(b: Backing, m: AccountMap, m': AccountMap, a: Address, r: Reading) {
    AccountAt(b, m', a) == Some(r) && OthersAsBefore(b, m, m', a) && SlotsAsBefore(b, m, m')
  }

  /** The slot now reads as given, its account is there, and nothing else reads differently. */
  ghost predicate NowReadsSlot(b: Backing, m: AccountMap, m': AccountMap, a: Address, k: Key, v: Value) {
    && AccountAt(b, m', a) == Some(AccountAt(b, m, a).GetOr(NEW_READING)) && OthersAsBefore(b, m, m', a)
    && forall c, j :: SlotAt(b, m', c, j) == if c == a && j == k then v else SlotAt(b, m, c, j)
  }

  /** A stored account reads as its record says. */
  lemma StoredReads(b: Backing, m: AccountMap, a: Address)
    requires a !in m && a in b.accounts
    ensures var r := b.accounts[a];
            var code := if r.codeHash == NoHash then None else Get(b.codes, (a, r.codeHash));
            AccountAt(b, m, a) == Some(Reading(r.balance, r.nonce, code, r.codeHash, false, false))
    ensures forall k :: SlotAt(b, m, a, k) == Get(b.storage, (a, k))
  {
  }

  /** Fetching an account creates it if it is missing and changes no reading otherwise. */
  lemma FetchReads(b: Backing, l: Ledger, a: Address)
    requires b.Ok() && AccountsOk(b, l.core.accounts)
    ensures var m := l.core.accounts;
            var m' := l.Touch(b, a).core.accounts;
            && a in m' && AccountsOk(b, m')
            && NowReads(b, m, m', a, AccountAt(b, m, a).GetOr(NEW_READING))
            && l.Touch(b, a).core.world == l.core.world && l.Touch(b, a).core.transient == l.core.transient
  {
    hide SimpleAccount.Ok;
    var m, m' := l.core.accounts, l.Touch(b, a).core.accounts;
    if a !in m && a in b.accounts {
      LoadIsOk(b, a);
    } else if a !in m {
      NewIsOk(b, a);
    }
    forall c | c != a ensures Peek(b, m', c) == Peek(b, m, c) {
    }
  }

  /** A reading of the account through a write of it. */
  lemma ReplaceReads(b: Backing, m: AccountMap, a: Address, acc: SimpleAccount)
    ensures AccountAt(b, m[a := acc], a) == Some(View(b, acc)) && OthersAsBefore(b, m, m[a := acc], a)
    ensures forall k :: SlotAt(b, m[a := acc], a, k) == acc.Slot(b, k)
    ensures forall c, k :: c != a ==> SlotAt(b, m[a := acc], c, k) == SlotAt(b, m, c, k)
  {
    forall c | c != a ensures Peek(b, m[a := acc], c) == Peek(b, m, c) {
    }
  }

  /** What an account reads like after a write of it. Code set to nil reads as the stored code, if any. */
  lemma ApplyReads(b: Backing, acc: SimpleAccount, w: AccountWrite)
    requires b.Ok() && acc.Ok(b)
    ensures var was, now := View(b, acc), View(b, acc.Apply(b, w));
            match w
            case Destruct => now == was.(destroyed := true)
            case SetBalance(v) => now == was.(balance := v)
            case SetNonce(n) => now == was.(nonce := n)
            case SetCode(c) =>
              now == was.(code := if c.Some? then c else b.OriginCode(acc.addr), codeHash := Keccak(c.GetOr([])))
            case SetState(_, _) => now == was
    ensures forall k :: acc.Apply(b, w).Slot(b, k) ==
                        if w.SetState? && w.key == k then w.value else acc.Slot(b, k)
  {
    if w.SetState? {
      CachedIsInvisible(b, acc.addr, acc.slots, w.key);
    }
  }

  /** One journaled account write, from the caller's side. */
  lemma UpdateReads(b: Backing, l: Ledger, a: Address, w: AccountWrite)
    requires b.Ok() && AccountsOk(b, l.core.accounts) && a in l.core.accounts
    ensures var m := l.core.accounts;
            var m' := l.Write(b, Update(a, w)).core.accounts;
            var was := AccountAt(b, m, a).GetOr(NEW_READING);
            match w
            case Destruct => NowReads(b, m, m', a, was.(destroyed := true))
            case SetBalance(v) => NowReads(b, m, m', a, was.(balance := v))
            case SetNonce(n) => NowReads(b, m, m', a, was.(nonce := n))
            case SetCode(c) =>
              var code := if c.Some? then c else b.OriginCode(a);
              NowReads(b, m, m', a, was.(code := code, codeHash := Keccak(c.GetOr([]))))
            case SetState(k, v) => NowReadsSlot(b, m, m', a, k, v)
    ensures l.Write(b, Update(a, w)).core.world == l.core.world
    ensures l.Write(b, Update(a, w)).core.transient == l.core.transient
  {
    hide SimpleAccount.Ok, SimpleAccount.Apply, SimpleAccount.Slot, View;
    ApplyReads(b, l.core.accounts[a], w);
    ReplaceReads(b, l.core.accounts, a, l.core.accounts[a].Apply(b, w));
  }

  lemma ReadsTrans(b: Backing, m: AccountMap, n: AccountMap, o: AccountMap, a: Address, r: Reading, s: Reading)
    requires NowReads(b, m, n, a, r) && NowReads(b, n, o, a, s)
    ensures NowReads(b, m, o, a, s)
  {
    hide AccountAt, SlotAt;
  }

  lemma ReadsThenSlot(b: Backing, m: AccountMap, n: AccountMap, o: AccountMap, a: Address, k: Key, v: Value)
    requires NowReads(b, m, n, a, AccountAt(b, m, a).GetOr(NEW_READING)) && NowReadsSlot(b, n, o, a, k, v)
    ensures NowReadsSlot(b, m, o, a, k, v)
  {
    hide AccountAt, SlotAt;
  }

  /** Finalising clears the created flags and changes no other reading. */
  lemma FinalisedReads(b: Backing, m: AccountMap, a: Address, k: Key)
    requires AccountsOk(b, m) && a in m
    ensures View(b, m[a].Finalised()) == View(b, m[a]).(created := false)
    ensures m[a].Finalised().Slot(b, k) == m[a].Slot(b, k) == m[a].Finalised().slots.Committed(b, a, k)
  {
    FinalisePublishes(b, a, m[a].slots, k);
  }

  /** Fetching an account and writing it, from the caller's side. */
  lemma FetchAndUpdateReads(b: Backing, l: Ledger, a: Address, w: AccountWrite)
    requires l.Valid(b)
    ensures var m := l.core.accounts;
            var next := l.Touch(b, a).Write(b, Update(a, w));
            var m' := next.core.accounts;
            var was := AccountAt(b, m, a).GetOr(NEW_READING);
            && next.core.world == l.core.world && next.core.transient == l.core.transient
            && match w
               case Destruct => NowReads(b, m, m', a, was.(destroyed := true))
               case SetBalance(v) => NowReads(b, m, m', a, was.(balance := v))
               case SetNonce(n) => NowReads(b, m, m', a, was.(nonce := n))
               case SetCode(c) =>
                 var code := if c.Some? then c else b.OriginCode(a);
                 NowReads(b, m, m', a, was.(code := code, codeHash := Keccak(c.GetOr([]))))
               case SetState(k, v) => NowReadsSlot(b, m, m', a, k, v)
  {
    hide AccountAt, SlotAt, OthersAsBefore, SlotsAsBefore, Ledger.Touch, Ledger.Write, AccountsOk, World.Ok;
    ValidIsOk(b, l);
    FetchReads(b, l, a);
    var mid := l.Touch(b, a);
    UpdateReads(b, mid, a, w);
    var m, n, o := l.core.accounts, mid.core.accounts, mid.Write(b, Update(a, w)).core.accounts;
    var was := AccountAt(b, m, a).GetOr(NEW_READING);
    assert AccountAt(b, n, a) == Some(was);
    match w
    case SetState(k, v) => ReadsThenSlot(b, m, n, o, a, k, v);
    case _ => ReadsTrans(b, m, n, o, a, was, AccountAt(b, o, a).value);
  }

  lemma ValidIsOk(b: Backing, l: Ledger)
    requires l.Valid(b)
    ensures b.Ok() && AccountsOk(b, l.core.accounts) && l.core.world.Ok()
  {
  }

  lemma Reads(b: Backing, m: AccountMap, m': AccountMap, a: Address, r: Reading)
    requires NowReads(b, m, m', a, r)
    ensures AccountAt(b, m', a) == Some(r)
  {
  }

  /** Filling the origin layer of a fetched account changes no reading. */
  lemma CacheReads(b: Backing, l: Ledger, a: Address, k: Key)
    requires AccountsOk(b, l.core.accounts) && a in l.core.accounts
    ensures var m := l.core.accounts;
            var m' := l.Cache(b, a, k).core.accounts;
            NowReads(b, m, m', a, View(b, m[a]))
  {
    var acc := l.core.accounts[a];
    CachedIsInvisible(b, a, acc.slots, k);
    ReplaceReads(b, l.core.accounts, a, acc.(slots := acc.slots.Cached(b, a, k)));
    forall j ensures acc.(slots := acc.slots.Cached(b, a, k)).Slot(b, j) == acc.Slot(b, j) {
      assert acc.slots.Cached(b, a, k).Current(b, a, j) == acc.slots.Current(b, a, j);
    }
  }

  /** Code set to nil does not read back where code is stored. */
  lemma NilCodeShowsStored(a: Address, code: Bytes)
    requires code != ""
    ensures var b := Backing(map[a := InnerAccount(0, 0, Keccak(code), "")], map[], map[(a, Keccak(code)) := code]);
            var l := EMPTY_LEDGER.Touch(b, a).Write(b, Update(a, SetCode(None)));
            b.Ok() && AccountAt(b, l.core.accounts, a).value.code == Some(code)
  {
    var b := Backing(map[a := InnerAccount(0, 0, Keccak(code), "")], map[], map[(a, Keccak(code)) := code]);
    EmptyLedgerIsValid(b);
    FetchAndUpdateReads(b, EMPTY_LEDGER, a, SetCode(None));
  }

  /** Finalising every loaded account. */
  lemma FinaliseReads(b: Backing, m: AccountMap)
    requires AccountsOk(b, m)
    ensures var m' := map a | a in m :: m[a].Finalised();
            && SlotsAsBefore(b, m, m')
            && forall a :: AccountAt(b, m', a) ==
                           if a in m then Some(AccountAt(b, m, a).value.(created := false)) else AccountAt(b, m, a)
  {
    hide SimpleAccount.Ok, View, SimpleAccount.Slot, SimpleAccount.Finalised;
    var m' := map a | a in m :: m[a].Finalised();
    forall a, k ensures SlotAt(b, m', a, k) == SlotAt(b, m, a, k) {
      if a in m {
        FinalisedReads(b, m, a, k);
      }
    }
    forall a ensures AccountAt(b, m', a) ==
                     if a in m then Some(AccountAt(b, m, a).value.(created := false)) else AccountAt(b, m, a)
    {
      if a in m {
        FinalisedReads(b, m, a, "");
      }
    }
  }
}
