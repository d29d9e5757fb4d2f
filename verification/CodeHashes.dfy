/** What reverting does to the code hash of an account. Undoing a code change stores the hash of the
    previous code bytes, also when the account had no hash or a hash of other bytes before. */
module CodeHashes {
  import opened Types
  import opened Accounts
  import opened Journal
  import opened Revisions

  datatype Facet = Facet(hash: CodeHash, code: Option<Bytes>) {
    predicate Settled() {
      hash == HashOf(code)
    }
  }

  function FacetOf(b: Backing, c: Core, a: Address): Option<Facet> {
    var p := Peek(b, c.accounts, a);
    if p.None? then None else Some(Facet(p.value.Inner().codeHash, p.value.Code(b)))
  }

  predicate ChangesCode(ch: Change, a: Address) {
    ch.OnAccount? && ch.account == a && ch.change.CodeChange?
  }

  /** Some entry from position k on changed the code of a. */
  predicate CodeChanged(journal: seq<Change>, k: nat, a: Address) {
    exists i :: k <= i < |journal| && ChangesCode(journal[i], a)
  }

  lemma AccountUndoOnFacet(b: Backing, acc: SimpleAccount, u: AccountChange)
    requires b.Ok() && acc.Ok(b) && EntryOk(b, acc.addr, u)
    ensures u.CodeChange? ==> acc.Undo(u).Inner().codeHash == HashOf(acc.Undo(u).Code(b))
    ensures !u.CodeChange? ==>
            acc.Undo(u).Inner().codeHash == acc.Inner().codeHash
            && acc.Undo(u).Code(b) == acc.Code(b)
  {
  }

  lemma UndoOnFacet(b: Backing, c: Core, ch: Change, a: Address)
    requires b.Ok() && c.Ok(b) && UndoReady(b, c, ch)
    ensures ChangesCode(ch, a) ==> FacetOf(b, Undo(b, c, ch), a).Some? && FacetOf(b, Undo(b, c, ch), a).value.Settled()
    ensures ch == CreateObject(a) ==> FacetOf(b, Undo(b, c, ch), a).None?
    ensures !ChangesCode(ch, a) && ch != CreateObject(a) ==> FacetOf(b, Undo(b, c, ch), a) == FacetOf(b, c, a)
  {
    if ch.OnAccount? && ch.account == a {
      AccountUndoOnFacet(b, c.accounts[a], ch.change);
    } else if ch != CreateObject(a) {
      assert Peek(b, Undo(b, c, ch).accounts, a) == Peek(b, c.accounts, a);
    }
  }

  lemma {:induction false} AbsentStaysAbsent(b: Backing, c: Core, journal: seq<Change>, k: nat, a: Address)
    requires b.Ok() && Undoable(b, c, journal) && FacetOf(b, c, a).None?
    ensures FacetOf(b, Undone(b, c, journal, k), a).None?
    decreases |journal|
  {
    if |journal| > k {
      var last := |journal| - 1;
      UndoOnFacet(b, c, journal[last], a);
      AbsentStaysAbsent(b, Undo(b, c, journal[last]), journal[..last], k, a);
    }
  }

  /** Undoing settles the hash of an account whose code changed and leaves all others alone. */
  lemma {:induction false} UndoneOnFacet(b: Backing, c: Core, journal: seq<Change>, k: nat, a: Address)
    requires b.Ok() && Undoable(b, c, journal) && FacetOf(b, Undone(b, c, journal, k), a).Some?
    ensures CodeChanged(journal, k, a) ==> FacetOf(b, Undone(b, c, journal, k), a).value.Settled()
    ensures !CodeChanged(journal, k, a) ==> FacetOf(b, Undone(b, c, journal, k), a) == FacetOf(b, c, a)
    decreases |journal|
  {
    if |journal| > k {
      var last := |journal| - 1;
      var front, d := journal[..last], Undo(b, c, journal[last]);
      UndoOnFacet(b, c, journal[last], a);
      if journal[last] == CreateObject(a) {
        AbsentStaysAbsent(b, d, front, k, a);
        assert false;
      }
      UndoneOnFacet(b, d, front, k, a);
      assert forall i :: k <= i < last ==> front[i] == journal[i];
      if CodeChanged(journal, k, a) && !ChangesCode(journal[last], a) {
        var i :| k <= i < |journal| && ChangesCode(journal[i], a);
        assert ChangesCode(front[i], a);
      }
      if CodeChanged(front, k, a) {
        var i :| k <= i < |front| && ChangesCode(front[i], a);
        assert ChangesCode(journal[i], a);
      }
    }
  }

  /** Starting from cores that agree on the facet, undoing leads to cores that agree on it. */
  lemma UndoneFacetsAgree(b: Backing, c: Core, d: Core, journal: seq<Change>, k: nat, a: Address)
    requires b.Ok() && Undoable(b, d, journal) && Covers(b, c, d)
    requires FacetOf(b, c, a) == FacetOf(b, d, a)
    requires FacetOf(b, Undone(b, d, journal, k), a).Some?
    ensures FacetOf(b, Undone(b, c, journal, k), a) == FacetOf(b, Undone(b, d, journal, k), a)
  {
    CoversIsUndoable(b, c, d, journal);
    UndoneRespectsCovers(b, c, d, journal, k);
    CodeAgrees(b, Undone(b, c, journal, k), Undone(b, d, journal, k), a);
    UndoneOnFacet(b, c, journal, k, a);
    UndoneOnFacet(b, d, journal, k, a);
  }

  lemma CodeAgrees(b: Backing, c: Core, d: Core, a: Address)
    requires Covers(b, c, d)
    ensures FacetOf(b, c, a).Some? == FacetOf(b, d, a).Some?
    ensures FacetOf(b, c, a).Some? ==> FacetOf(b, c, a).value.code == FacetOf(b, d, a).value.code
  {
    assert SamePeek(b, Peek(b, c.accounts, a), Peek(b, d.accounts, a));
  }

  predicate SetsCode(op: Op, a: Address) {
    op.Mutate? && op.write.Update? && op.write.account == a && op.write.write.SetCode?
  }

  predicate SetsCodeIn(ops: seq<Op>, a: Address) {
    exists i :: 0 <= i < |ops| && SetsCode(ops[i], a)
  }

  /** What undoing m to the snapshot taken at l makes of the hash of a. */
  ghost predicate HashInv(b: Backing, l: Ledger, m: Ledger, a: Address, touched: bool) {
    m.Live(l.nextId) ==>
      var f := FacetOf(b, Undone(b, m.core, m.journal, |l.journal|), a);
      f.Some? && if touched then f.value.Settled() else f == FacetOf(b, l.core, a)
  }

  lemma HashByCovers(b: Backing, l: Ledger, m: Ledger, n: Ledger, a: Address, touched: bool)
    requires l.Valid(b) && Descends(b, l, m) && HashInv(b, l, m, a, touched)
    requires n == m.(core := n.core) && Covers(b, n.core, m.core) && FacetOf(b, n.core, a) == FacetOf(b, m.core, a)
    ensures HashInv(b, l, n, a, touched)
  {
    if n.Live(l.nextId) {
      var i :| n.At(i, l.nextId);
      assert m.At(i, l.nextId);
      UndoneFacetsAgree(b, n.core, m.core, m.journal, |l.journal|, a);
    }
  }

  lemma AccountWriteKeepsFacet(b: Backing, acc: SimpleAccount, u: AccountWrite)
    requires b.Ok() && acc.Ok(b) && !u.SetCode?
    ensures var back := acc.Apply(b, u).Undo(acc.Record(b, u));
            back.Inner().codeHash == acc.Inner().codeHash && back.Code(b) == acc.Code(b)
  {
  }

  lemma WriteKeepsFacet(b: Backing, c: Core, w: Write, a: Address)
    requires b.Ok() && c.Ok(b) && Enabled(b, c, w) && !SetsCode(Mutate(w), a)
    ensures FacetOf(b, Undo(b, Perform(b, c, w), Record(b, c, w)), a) == FacetOf(b, c, a)
  {
    var m := Undo(b, Perform(b, c, w), Record(b, c, w)).accounts;
    if w.Update? && w.account == a {
      AccountWriteKeepsFacet(b, c.accounts[a], w.write);
    } else {
      assert Peek(b, m, a) == Peek(b, c.accounts, a);
    }
  }

  /** After undoing the entry of a write, undoing the rest reaches the same facet as before the
      write, settled if the write set the code. */
  lemma UndoneAfterWrite(b: Backing, m: Ledger, w: Write, k: nat, a: Address)
    requires m.Valid(b) && Enabled(b, m.core, w)
    requires FacetOf(b, Undone(b, m.core, m.journal, k), a).Some?
    ensures var f := FacetOf(b, Undone(b, m.core, m.journal, k), a);
            var g := FacetOf(b, Undone(b, Undo(b, Perform(b, m.core, w), Record(b, m.core, w)), m.journal, k), a);
            g.Some? && if SetsCode(Mutate(w), a) then g.value.Settled() && g.value.code == f.value.code else g == f
  {
    hide Covers, SameAccount, SimpleAccount.Apply, SimpleAccount.Undo, SimpleAccount.Ok, SimpleAccount.Code, Undo,
        Perform;
    var c := Perform(b, m.core, w);
    var ch := Record(b, m.core, w);
    var back := Undo(b, c, ch);
    PerformKeepsOk(b, m.core, w);
    UndoInvertsWrite(b, m.core, w);
    if SetsCode(Mutate(w), a) {
      CoversIsUndoable(b, back, m.core, m.journal);
      UndoneRespectsCovers(b, back, m.core, m.journal, k);
      CodeAgrees(b, Undone(b, back, m.journal, k), Undone(b, m.core, m.journal, k), a);
      UndoOnFacet(b, c, ch, a);
      UndoneOnFacet(b, back, m.journal, k, a);
    } else {
      WriteKeepsFacet(b, m.core, w, a);
      UndoneFacetsAgree(b, back, m.core, m.journal, k, a);
    }
  }

  lemma HashByWrite(b: Backing, l: Ledger, m: Ledger, w: Write, a: Address, touched: bool)
    requires l.Valid(b) && Descends(b, l, m) && HashInv(b, l, m, a, touched)
    requires SetsCode(Mutate(w), a) ==> Enabled(b, m.core, w)
    ensures HashInv(b, l, m.Write(b, w), a, touched || SetsCode(Mutate(w), a))
  {
    if Enabled(b, m.core, w) {
      var n, k := m.Write(b, w), |l.journal|;
      if n.Live(l.nextId) {
        var i :| n.At(i, l.nextId);
        assert m.At(i, l.nextId);
        assert n.journal[|m.journal|] == Record(b, m.core, w) && n.journal[..|m.journal|] == m.journal;
        UndoneAfterWrite(b, m, w, k, a);
      }
    }
  }

  lemma HashByTouch(b: Backing, l: Ledger, m: Ledger, x: Address, a: Address, touched: bool)
    requires l.Valid(b) && Descends(b, l, m) && HashInv(b, l, m, a, touched)
    ensures HashInv(b, l, m.Touch(b, x), a, touched)
  {
    if x in m.core.accounts {
    } else if x in b.accounts {
      LoadIsCovered(b, m, x);
      HashByCovers(b, l, m, m.Touch(b, x), a, touched);
    } else {
      HashByWrite(b, l, m, Create(x), a, touched);
    }
  }

  lemma HashByRead(b: Backing, l: Ledger, m: Ledger, x: Address, k: Key, a: Address, touched: bool)
    requires l.Valid(b) && Descends(b, l, m) && HashInv(b, l, m, a, touched)
    ensures HashInv(b, l, m.Cache(b, x, k), a, touched)
  {
    CacheIsCovered(b, m, x, k);
    HashByCovers(b, l, m, m.Cache(b, x, k), a, touched);
  }

  lemma HashBySnapshot(b: Backing, l: Ledger, m: Ledger, a: Address, touched: bool)
    requires Descends(b, l, m) && HashInv(b, l, m, a, touched)
    ensures HashInv(b, l, m.Snapshot(), a, touched)
  {
    var n := m.Snapshot();
    if n.Live(l.nextId) {
      var i :| n.At(i, l.nextId);
      assert m.At(i, l.nextId);
    }
  }

  lemma HashByRevert(b: Backing, l: Ledger, m: Ledger, i: nat, a: Address, touched: bool)
    requires l.Valid(b) && Descends(b, l, m) && HashInv(b, l, m, a, touched) && i < |m.revisions|
    ensures HashInv(b, l, m.RevertAt(b, i), a, touched)
  {
    var n := m.RevertAt(b, i);
    if n.Live(l.nextId) {
      var j :| n.At(j, l.nextId);
      assert m.At(j, l.nextId);
      assert m.At(|l.revisions|, l.nextId);
      RevisionIsUnique(m, j, |l.revisions|, l.nextId);
      UndoneComposes(b, m.core, m.journal, m.revisions[i].index, |l.journal|);
    }
  }

  lemma HashByExec(b: Backing, l: Ledger, m: Ledger, op: Op, a: Address, touched: bool)
    requires l.Valid(b) && Descends(b, l, m) && HashInv(b, l, m, a, touched) && Exec(b, m, op).Some?
    ensures HashInv(b, l, Exec(b, m, op).value, a, touched || SetsCode(op, a))
  {
    match op
    case Fetch(x) => HashByTouch(b, l, m, x, a, touched);
    case Read(x, k) =>
      DescendsByTouch(b, l, m, x);
      HashByTouch(b, l, m, x, a, touched);
      HashByRead(b, l, m.Touch(b, x), x, k, a, touched);
    case Mutate(w) =>
      if w.Update? {
        TouchKeepsValid(b, m, w.account);
        DescendsByTouch(b, l, m, w.account);
        HashByTouch(b, l, m, w.account, a, touched);
        HashByWrite(b, l, m.Touch(b, w.account), w, a, touched);
      } else {
        HashByWrite(b, l, m, w, a, touched);
      }
    case TakeSnapshot => HashBySnapshot(b, l, m, a, touched);
    case RevertTo(id) =>
      var i: nat :| m.At(i, id) && Exec(b, m, op) == Some(m.RevertAt(b, i));
      HashByRevert(b, l, m, i, a, touched);
  }

  lemma SetsCodeInCons(ops: seq<Op>, a: Address)
    requires ops != []
    ensures SetsCodeIn(ops, a) == (SetsCode(ops[0], a) || SetsCodeIn(ops[1..], a))
  {
    if SetsCodeIn(ops[1..], a) {
      var i :| 0 <= i < |ops[1..]| && SetsCode(ops[1..][i], a);
      assert SetsCode(ops[i + 1], a);
    }
    if SetsCodeIn(ops, a) && !SetsCode(ops[0], a) {
      var i :| 0 <= i < |ops| && SetsCode(ops[i], a);
      assert SetsCode(ops[1..][i - 1], a);
    }
  }

  lemma {:induction false} HashByRun(b: Backing, l: Ledger, m: Ledger, ops: seq<Op>, a: Address, touched: bool)
    requires l.Valid(b) && Descends(b, l, m) && HashInv(b, l, m, a, touched) && Run(b, m, ops).Some?
    ensures HashInv(b, l, Run(b, m, ops).value, a, touched || SetsCodeIn(ops, a))
    decreases |ops|
  {
    if ops != [] {
      DescendsByExec(b, l, m, ops[0]);
      HashByExec(b, l, m, ops[0], a, touched);
      HashByRun(b, l, Exec(b, m, ops[0]).value, ops[1..], a, touched || SetsCode(ops[0], a));
      SetsCodeInCons(ops, a);
    }
  }

  /** Exactly when reverting restores the code hash of an existing account: when the calls since the
      snapshot never set its code, or when its hash at the snapshot was that of its code bytes. */
  lemma CodeHashRestoredIff(b: Backing, l: Ledger, ops: seq<Op>, a: Address)
    requires l.Valid(b) && FacetOf(b, l.core, a).Some?
    requires Run(b, l, [TakeSnapshot] + ops).Some? && Run(b, l, [TakeSnapshot] + ops).value.Live(l.nextId)
    ensures var m := Run(b, l, [TakeSnapshot] + ops).value;
            && m.Valid(b) && Exec(b, m, RevertTo(l.nextId)).Some?
            && var f := FacetOf(b, Exec(b, m, RevertTo(l.nextId)).value.core, a);
               f.Some? && (f.value.hash == FacetOf(b, l.core, a).value.hash
                           <==> !SetsCodeIn(ops, a) || FacetOf(b, l.core, a).value.Settled())
  {
    var m := RunAfterSnapshot(b, l, ops);
    SnapshotDescends(b, l);
    HashByRun(b, l, l.Snapshot(), ops, a, false);
    DescendsByRun(b, l, l.Snapshot(), ops);
    CodeAgrees(b, Undone(b, m.core, m.journal, |l.journal|), l.core, a);
    RevertOfDescendant(b, l, m);
  }

  /** A block start with one account, which has no code hash. */
  const BARE_ACCOUNT := Backing(map["a" := InnerAccount(7, 0, NoHash, "")], map[], map[])
  const GIVE_CODE := Mutate(Update("a", SetCode(Some("code"))))

  lemma GiveCodeRuns()
    ensures EMPTY_LEDGER.Valid(BARE_ACCOUNT)
    ensures Run(BARE_ACCOUNT, EMPTY_LEDGER, [TakeSnapshot, GIVE_CODE]).Some?
    ensures Run(BARE_ACCOUNT, EMPTY_LEDGER, [TakeSnapshot, GIVE_CODE]).value.Live(0)
  {
    hide SimpleAccount.Apply, SimpleAccount.Record, Ledger.Valid;
    var b, l := BARE_ACCOUNT, EMPTY_LEDGER;
    EmptyLedgerIsValid(b);
    ExecKeepsValid(b, l, TakeSnapshot);
    ExecKeepsValid(b, l.Snapshot(), GIVE_CODE);
    var m := Exec(b, l.Snapshot(), GIVE_CODE).value;
    assert m.At(0, 0);
    assert [TakeSnapshot, GIVE_CODE][1..] == [GIVE_CODE] && [GIVE_CODE][1..] == [];
    assert Run(b, m, []) == Some(m);
    assert Run(b, l.Snapshot(), [GIVE_CODE]) == Some(m);
  }

  /** The failing case: an account without a code hash is given code and the call is reverted. */
  lemma CodeHashNotRestored()
    ensures FacetOf(BARE_ACCOUNT, EMPTY_LEDGER.core, "a") == Some(Facet(NoHash, None))
    ensures Run(BARE_ACCOUNT, EMPTY_LEDGER, [TakeSnapshot, GIVE_CODE]).Some?
    ensures var m := Run(BARE_ACCOUNT, EMPTY_LEDGER, [TakeSnapshot, GIVE_CODE]).value;
            m.Valid(BARE_ACCOUNT) && Exec(BARE_ACCOUNT, m, RevertTo(0)).Some?
            && FacetOf(BARE_ACCOUNT, Exec(BARE_ACCOUNT, m, RevertTo(0)).value.core, "a").Some?
            && FacetOf(BARE_ACCOUNT, Exec(BARE_ACCOUNT, m, RevertTo(0)).value.core, "a").value.hash != NoHash
  {
    hide Run, Exec, Ledger.Valid, Ledger.Live;
    GiveCodeRuns();
    assert [TakeSnapshot] + [GIVE_CODE] == [TakeSnapshot, GIVE_CODE];
    CodeHashRestoredIff(BARE_ACCOUNT, EMPTY_LEDGER, [GIVE_CODE], "a");
    assert SetsCode([GIVE_CODE][0], "a");
  }
}
