/** Nested snapshots of the state ledger, over whole runs. */
module Revisions {
  import opened Types
  import opened Accounts
  import opened Journal
  import opened AccessLists

  /** Undo the entries from position k on, last first. */
  function Undone(b: Backing, c: Core, journal: seq<Change>, k: nat): Core
    decreases |journal|
  {
    if |journal| <= k then c
    else
      var last := |journal| - 1;
      Undone(b, Undo(b, c, journal[last]), journal[..last], k)
  }

  /** The journal can be undone completely, every entry finding what it relies on. */
  ghost predicate Undoable(b: Backing, c: Core, journal: seq<Change>)
    decreases |journal|
  {
    && c.Ok(b)
    && (journal != [] ==>
          var last := |journal| - 1;
          UndoReady(b, c, journal[last]) && Undoable(b, Undo(b, c, journal[last]), journal[..last]))
  }

  lemma {:induction false} CoversIsUndoable(b: Backing, c: Core, d: Core, journal: seq<Change>)
    requires b.Ok() && Covers(b, c, d) && Undoable(b, d, journal)
    ensures Undoable(b, c, journal)
    decreases |journal|
  {
    if journal != [] {
      var last := |journal| - 1;
      UndoRespectsCovers(b, c, d, journal[last]);
      CoversIsUndoable(b, Undo(b, c, journal[last]), Undo(b, d, journal[last]), journal[..last]);
    }
  }

  lemma {:induction false} UndoneRespectsCovers(b: Backing, c: Core, d: Core, journal: seq<Change>, k: nat)
    requires b.Ok() && Covers(b, c, d) && Undoable(b, d, journal)
    ensures Covers(b, Undone(b, c, journal, k), Undone(b, d, journal, k))
    decreases |journal|
  {
    if |journal| > k {
      var last := |journal| - 1;
      UndoRespectsCovers(b, c, d, journal[last]);
      UndoneRespectsCovers(b, Undo(b, c, journal[last]), Undo(b, d, journal[last]), journal[..last], k);
    }
  }

  /** Undoing down to i and then down to k is undoing down to k. */
  lemma {:induction false} UndoneComposes(b: Backing, c: Core, journal: seq<Change>, i: nat, k: nat)
    requires k <= i <= |journal|
    ensures Undone(b, Undone(b, c, journal, i), journal[..i], k) == Undone(b, c, journal, k)
    decreases |journal|
  {
    if |journal| == i {
      assert journal[..i] == journal;
    } else {
      var last := |journal| - 1;
      assert journal[..last][..i] == journal[..i];
      UndoneComposes(b, Undo(b, c, journal[last]), journal[..last], i, k);
    }
  }

  lemma {:induction false} UndoneIsUndoable(b: Backing, c: Core, journal: seq<Change>, i: nat)
    requires Undoable(b, c, journal) && i <= |journal|
    ensures Undoable(b, Undone(b, c, journal, i), journal[..i])
    decreases |journal|
  {
    if |journal| == i {
      assert journal[..i] == journal;
    } else {
      var last := |journal| - 1;
      assert journal[..last][..i] == journal[..i];
      UndoneIsUndoable(b, Undo(b, c, journal[last]), journal[..last], i);
    }
  }

  // ---------------------------------------------------------------- the ledger

  datatype Revision = Revision(id: nat, index: nat)

  datatype Ledger = Ledger(core: Core, journal: seq<Change>, revisions: seq<Revision>, nextId: nat) {

    /** Ids increase strictly and journal positions never decrease, so a binary search by id works. */
    ghost predicate RevisionsOk() {
      && (forall i :: 0 <= i < |revisions| ==> revisions[i].id < nextId && revisions[i].index <= |journal|)
      && (forall i, j :: 0 <= i < j < |revisions| ==> revisions[i].id < revisions[j].id)
      && (forall i, j :: 0 <= i < j < |revisions| ==> revisions[i].index <= revisions[j].index)
    }

    ghost predicate Valid(b: Backing) {
      b.Ok() && Undoable(b, core, journal) && RevisionsOk()
    }

    function Write(b: Backing, w: Write): Ledger {
      if Enabled(b, core, w) then
        this.(core := Perform(b, core, w), journal := journal + [Record(b, core, w)])
      else this
    }

    /** Fetch an account: loaded, else read from the backing, else created. */
    function Touch(b: Backing, a: Address): Ledger {
      if a in core.accounts then this
      else if a in b.accounts then this.(core := core.With(a, b.Load(a)))
      else Write(b, Create(a))
    }

    /** Reading a slot fills the origin layer. */
    function Cache(b: Backing, a: Address, k: Key): Ledger {
      if a !in core.accounts then this
      else
        var acc := core.accounts[a];
        this.(core := core.With(a, acc.(slots := acc.slots.Cached(b, a, k))))
    }

    function Snapshot(): Ledger {
      this.(revisions := revisions + [Revision(nextId, |journal|)], nextId := nextId + 1)
    }

    /** Position i holds a live snapshot. */
    predicate At(i: int, id: nat) {
      0 <= i < |revisions| && revisions[i].id == id
    }

    ghost predicate Live(id: nat) {
      exists i :: At(i, id)
    }

    function RevertAt(b: Backing, i: nat): Ledger
      requires i < |revisions| && revisions[i].index <= |journal|
    {
      var k := revisions[i].index;
      this.(core := Undone(b, core, journal, k), journal := journal[..k], revisions := revisions[..i])
    }
  }

  datatype Op = Fetch(address: Address) | Read(address: Address, key: Key) | Mutate(write: Write) | TakeSnapshot
      | RevertTo(id: nat)

  /** One ledger call; None is the panic on an unknown revision id. */
  ghost function Exec(b: Backing, l: Ledger, op: Op): Option<Ledger>
    requires l.RevisionsOk()
  {
    match op
    case Fetch(a) => Some(l.Touch(b, a))
    case Read(a, k) => Some(l.Touch(b, a).Cache(b, a, k))
    case Mutate(w) => Some((if w.Update? then l.Touch(b, w.account) else l).Write(b, w))
    case TakeSnapshot => Some(l.Snapshot())
    case RevertTo(id) => if l.Live(id) then var i: nat :| l.At(i, id); Some(l.RevertAt(b, i)) else None
  }

  lemma RevisionIsUnique(l: Ledger, i: int, j: int, id: nat)
    requires l.RevisionsOk() && l.At(i, id) && l.At(j, id)
    ensures i == j
  {
  }

  // ---------------------------------------------------------------- every call keeps the invariant

  lemma WriteKeepsValid(b: Backing, l: Ledger, w: Write)
    requires l.Valid(b)
    ensures l.Write(b, w).Valid(b)
  {
    if Enabled(b, l.core, w) {
      var m := l.Write(b, w);
      var ch := Record(b, l.core, w);
      PerformKeepsOk(b, l.core, w);
      UndoInvertsWrite(b, l.core, w);
      CoversIsUndoable(b, Undo(b, m.core, ch), l.core, l.journal);
      assert m.journal[|l.journal|] == ch && m.journal[..|l.journal|] == l.journal;
    }
  }

  lemma LoadIsCovered(b: Backing, l: Ledger, a: Address)
    requires l.Valid(b) && a !in l.core.accounts && a in b.accounts
    ensures Covers(b, l.core.With(a, b.Load(a)), l.core)
  {
    LoadIsOk(b, a);
    UpdateKeepsOk(b, l.core.accounts, a, b.Load(a));
    ReplaceIsInvisible(b, l.core.accounts, a, b.Load(a));
  }

  lemma CacheIsCovered(b: Backing, l: Ledger, a: Address, k: Key)
    requires l.Valid(b)
    ensures Covers(b, l.Cache(b, a, k).core, l.core)
  {
    if a in l.core.accounts {
      var acc := l.core.accounts[a];
      var next := acc.(slots := acc.slots.Cached(b, a, k));
      CachedIsInvisible(b, a, acc.slots, k);
      UpdateKeepsOk(b, l.core.accounts, a, next);
      ReplaceIsInvisible(b, l.core.accounts, a, next);
    } else {
      SameAccountsRefl(b, l.core.accounts);
    }
  }

  lemma TouchKeepsValid(b: Backing, l: Ledger, a: Address)
    requires l.Valid(b)
    ensures l.Touch(b, a).Valid(b) && a in l.Touch(b, a).core.accounts
  {
    if a in l.core.accounts {
    } else if a in b.accounts {
      LoadIsCovered(b, l, a);
      CoversIsUndoable(b, l.core.With(a, b.Load(a)), l.core, l.journal);
    } else {
      WriteKeepsValid(b, l, Create(a));
    }
  }

  lemma RevertKeepsValid(b: Backing, l: Ledger, i: nat)
    requires l.Valid(b) && i < |l.revisions|
    ensures l.RevertAt(b, i).Valid(b)
  {
    UndoneIsUndoable(b, l.core, l.journal, l.revisions[i].index);
    var m := l.RevertAt(b, i);
    forall j | 0 <= j < |m.revisions| ensures m.revisions[j].index <= |m.journal| {
      assert l.revisions[j].index <= l.revisions[i].index;
    }
  }

  lemma CacheKeepsValid(b: Backing, l: Ledger, a: Address, k: Key)
    requires l.Valid(b)
    ensures l.Cache(b, a, k).Valid(b)
  {
    CacheIsCovered(b, l, a, k);
    CoversIsUndoable(b, l.Cache(b, a, k).core, l.core, l.journal);
  }

  /** Every call keeps the invariant: in particular every entry of the journal still finds its
      account loaded when its turn to be undone comes, so undoing never appends. */
  lemma ExecKeepsValid(b: Backing, l: Ledger, op: Op)
    requires l.Valid(b)
    ensures Exec(b, l, op).Some? ==> Exec(b, l, op).value.Valid(b)
  {
    match op
    case Fetch(a) => TouchKeepsValid(b, l, a);
    case Read(a, k) =>
      TouchKeepsValid(b, l, a);
      CacheKeepsValid(b, l.Touch(b, a), a, k);
    case Mutate(w) =>
      if w.Update? {
        TouchKeepsValid(b, l, w.account);
        WriteKeepsValid(b, l.Touch(b, w.account), w);
      } else {
        WriteKeepsValid(b, l, w);
      }
    case TakeSnapshot =>
    case RevertTo(id) =>
      if l.Live(id) {
        var i: nat :| l.At(i, id) && Exec(b, l, op) == Some(l.RevertAt(b, i));
        RevertKeepsValid(b, l, i);
      }
  }

  // ---------------------------------------------------------------- runs

  const EMPTY_LEDGER := Ledger(Core(map[], Transients(map[]), World(0, map[], 0, map[], EMPTY)), [], [], 0)

  lemma EmptyLedgerIsValid(b: Backing)
    requires b.Ok()
    ensures EMPTY_LEDGER.Valid(b)
  {
  }

  ghost function Run(b: Backing, l: Ledger, ops: seq<Op>): Option<Ledger>
    requires l.Valid(b)
    decreases |ops|
  {
    if ops == [] then Some(l)
    else
      ExecKeepsValid(b, l, ops[0]);
      var m := Exec(b, l, ops[0]);
      if m.None? then None else Run(b, m.value, ops[1..])
  }

  /** m was reached from l, and the snapshot taken at l is still live in m at the position it was
      given: undoing m down to it gives back l. */
  ghost predicate Descends(b: Backing, l: Ledger, m: Ledger) {
    var p, k := |l.revisions|, |l.journal|;
    && m.Valid(b)
    && l.nextId < m.nextId
    && (m.Live(l.nextId) ==>
          && p < |m.revisions| && m.revisions[p] == Revision(l.nextId, k) && m.revisions[..p] == l.revisions
          && k <= |m.journal| && m.journal[..k] == l.journal
          && Covers(b, Undone(b, m.core, m.journal, k), l.core))
  }

  lemma DescendsByCovers(b: Backing, l: Ledger, m: Ledger, n: Ledger)
    requires l.Valid(b) && Descends(b, l, m) && n.Valid(b)
    requires n == m.(core := n.core) && Covers(b, n.core, m.core)
    ensures Descends(b, l, n)
  {
    assert forall i, id :: n.At(i, id) == m.At(i, id);
    if m.Live(l.nextId) {
      UndoneRespectsCovers(b, n.core, m.core, m.journal, |l.journal|);
      CoversTrans(b, Undone(b, n.core, n.journal, |l.journal|), Undone(b, m.core, m.journal, |l.journal|), l.core);
    }
  }

  lemma DescendsByWrite(b: Backing, l: Ledger, m: Ledger, w: Write)
    requires l.Valid(b) && Descends(b, l, m)
    ensures Descends(b, l, m.Write(b, w))
  {
    WriteKeepsValid(b, m, w);
    if Enabled(b, m.core, w) {
      var n, ch, k := m.Write(b, w), Record(b, m.core, w), |l.journal|;
      assert forall i, id :: n.At(i, id) == m.At(i, id);
      assert n.journal[|m.journal|] == ch && n.journal[..|m.journal|] == m.journal;
      if m.Live(l.nextId) {
        assert n.journal[..k] == m.journal[..k];
        UndoInvertsWrite(b, m.core, w);
        UndoneRespectsCovers(b, Undo(b, n.core, ch), m.core, m.journal, k);
        CoversTrans(b, Undone(b, n.core, n.journal, k), Undone(b, m.core, m.journal, k), l.core);
      }
    }
  }

  lemma DescendsByTouch(b: Backing, l: Ledger, m: Ledger, a: Address)
    requires l.Valid(b) && Descends(b, l, m)
    ensures Descends(b, l, m.Touch(b, a))
  {
    if a in m.core.accounts {
    } else if a in b.accounts {
      TouchKeepsValid(b, m, a);
      LoadIsCovered(b, m, a);
      DescendsByCovers(b, l, m, m.Touch(b, a));
    } else {
      DescendsByWrite(b, l, m, Create(a));
    }
  }

  lemma DescendsByRevert(b: Backing, l: Ledger, m: Ledger, i: nat)
    requires l.Valid(b) && Descends(b, l, m) && i < |m.revisions|
    ensures Descends(b, l, m.RevertAt(b, i))
  {
    var n := m.RevertAt(b, i);
    RevertKeepsValid(b, m, i);
    if n.Live(l.nextId) {
      var j :| n.At(j, l.nextId);
      assert m.At(j, l.nextId);
      RevisionIsUnique(m, j, |l.revisions|, l.nextId);
      assert m.At(|l.revisions|, l.nextId);
      var k := |l.journal|;
      assert n.revisions[..|l.revisions|] == m.revisions[..|l.revisions|];
      assert n.journal[..k] == m.journal[..k];
      UndoneComposes(b, m.core, m.journal, m.revisions[i].index, k);
    }
  }

  lemma DescendsByExec(b: Backing, l: Ledger, m: Ledger, op: Op)
    requires l.Valid(b) && Descends(b, l, m) && Exec(b, m, op).Some?
    ensures Descends(b, l, Exec(b, m, op).value)
  {
    ExecKeepsValid(b, m, op);
    match op
    case Fetch(a) => DescendsByTouch(b, l, m, a);
    case Read(a, k) =>
      TouchKeepsValid(b, m, a);
      DescendsByTouch(b, l, m, a);
      CacheIsCovered(b, m.Touch(b, a), a, k);
      DescendsByCovers(b, l, m.Touch(b, a), Exec(b, m, op).value);
    case Mutate(w) =>
      if w.Update? {
        DescendsByTouch(b, l, m, w.account);
        DescendsByWrite(b, l, m.Touch(b, w.account), w);
      } else {
        DescendsByWrite(b, l, m, w);
      }
    case TakeSnapshot =>
      var n := m.Snapshot();
      if n.Live(l.nextId) {
        var i :| n.At(i, l.nextId);
        assert m.At(i, l.nextId);
        assert n.revisions[..|l.revisions|] == m.revisions[..|l.revisions|];
      }
    case RevertTo(id) =>
      var i: nat :| m.At(i, id) && Exec(b, m, op) == Some(m.RevertAt(b, i));
      DescendsByRevert(b, l, m, i);
  }

  lemma {:induction false} DescendsByRun(b: Backing, l: Ledger, m: Ledger, ops: seq<Op>)
    requires l.Valid(b) && Descends(b, l, m) && Run(b, m, ops).Some?
    ensures Descends(b, l, Run(b, m, ops).value)
    decreases |ops|
  {
    if ops != [] {
      ExecKeepsValid(b, m, ops[0]);
      DescendsByExec(b, l, m, ops[0]);
      DescendsByRun(b, l, Exec(b, m, ops[0]).value, ops[1..]);
    }
  }

  lemma SnapshotDescends(b: Backing, l: Ledger)
    requires l.Valid(b)
    ensures Descends(b, l, l.Snapshot())
  {
    assert l.journal[..|l.journal|] == l.journal;
    assert l.Snapshot().revisions[..|l.revisions|] == l.revisions;
    SameAccountsRefl(b, l.core.accounts);
  }

  lemma RunAfterSnapshot(b: Backing, l: Ledger, ops: seq<Op>) returns (m: Ledger)
    requires l.Valid(b) && Run(b, l, [TakeSnapshot] + ops).Some?
    ensures m == Run(b, l, [TakeSnapshot] + ops).value
    ensures l.Snapshot().Valid(b) && Run(b, l.Snapshot(), ops) == Some(m)
  {
    assert ([TakeSnapshot] + ops)[1..] == ops;
    ExecKeepsValid(b, l, TakeSnapshot);
    m := Run(b, l.Snapshot(), ops).value;
  }

  lemma RevertOfDescendant(b: Backing, l: Ledger, m: Ledger)
    requires Descends(b, l, m) && m.Live(l.nextId)
    ensures Exec(b, m, RevertTo(l.nextId)) == Some(m.RevertAt(b, |l.revisions|))
    ensures var r := m.RevertAt(b, |l.revisions|);
            && r.core == Undone(b, m.core, m.journal, |l.journal|) && Same(b, r.core, l.core)
            && r.journal == l.journal && r.revisions == l.revisions
  {
    var i: nat :| m.At(i, l.nextId) && Exec(b, m, RevertTo(l.nextId)) == Some(m.RevertAt(b, i));
    assert m.At(|l.revisions|, l.nextId);
    RevisionIsUnique(m, i, |l.revisions|, l.nextId);
  }

  /** The main theorem. Take a snapshot at any reachable ledger, run any calls at all, including
      further snapshots and reverts. As long as the snapshot is still live, reverting to it gives a
      ledger that answers every read as at the snapshot, with the journal and the older snapshots
      exactly as they were. */
  lemma RevertRestoresSnapshot(b: Backing, l: Ledger, ops: seq<Op>)
    requires l.Valid(b)
    requires Run(b, l, [TakeSnapshot] + ops).Some? && Run(b, l, [TakeSnapshot] + ops).value.Live(l.nextId)
    ensures var m := Run(b, l, [TakeSnapshot] + ops).value;
            && m.Valid(b)
            && var r := Exec(b, m, RevertTo(l.nextId));
               r.Some? && Same(b, r.value.core, l.core) && r.value.journal == l.journal
                   && r.value.revisions == l.revisions
  {
    var m := RunAfterSnapshot(b, l, ops);
    SnapshotDescends(b, l);
    DescendsByRun(b, l, l.Snapshot(), ops);
    RevertOfDescendant(b, l, m);
  }

  lemma DeadStaysDead(b: Backing, m: Ledger, id: nat, op: Op)
    requires m.Valid(b) && id < m.nextId && !m.Live(id) && Exec(b, m, op).Some?
    ensures !Exec(b, m, op).value.Live(id) && id < Exec(b, m, op).value.nextId
  {
    var n := Exec(b, m, op).value;
    forall i ensures n.At(i, id) ==> m.At(i, id) {
    }
  }

  /** A snapshot that was reverted to, or past, never comes back to life. */
  lemma {:induction false} RevertedStaysDead(b: Backing, m: Ledger, id: nat, ops: seq<Op>)
    requires m.Valid(b) && id < m.nextId && !m.Live(id)
    requires Run(b, m, ops).Some?
    ensures !Run(b, m, ops).value.Live(id)
    decreases |ops|
  {
    if ops != [] {
      ExecKeepsValid(b, m, ops[0]);
      DeadStaysDead(b, m, id, ops[0]);
      RevertedStaysDead(b, Exec(b, m, ops[0]).value, id, ops[1..]);
    }
  }
}
